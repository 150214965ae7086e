/** The tables of filesize.go: unit names indexed by magnitude (B for
    bytes, then one name per factor of the base), the two named bases and
    the two output modes. */
module Units {
  import opened Text

  /** Unit names of the standard (Windows-like) mode. */
  const StdUnits: seq<string> := ["B", "KB", "MB", "GB", "TB", "PB", "EB"]

  /** Unit names of the IEC binary prefixes. */
  const IecUnits: seq<string> := ["B", "KiB", "MiB", "GiB", "TiB", "PiB", "EiB"]

  /** The largest magnitude the tables name. */
  const MaxMagnitude: nat := 6

  /** Base of the binary units (KiB, MiB, ...). */
  const BaseBinary: nat := 1024

  /** Base of the decimal units (KB, MB, ...). */
  const BaseDecimal: nat := 1000

  /** Output mode with standard names only. */
  const FormatStandard: string := "standard"

  /** Output mode with IEC names for binary bases. */
  const FormatIEC: string := "IEC"

  /** The upper-case forms of the IEC names, as the parser matches them. */
  const UpperIecUnits: seq<string> := ["B", "KIB", "MIB", "GIB", "TIB", "PIB", "EIB"]

  /** Both tables name the same magnitudes, 0 to MaxMagnitude; both start
      with the plain byte and every IEC name is the standard prefix letter
      followed by "iB". The two output modes are distinct. */
  lemma TablesAgree()
    ensures |StdUnits| == |IecUnits| == MaxMagnitude + 1
    ensures StdUnits[0] == IecUnits[0] == "B"
    ensures forall k :: 1 <= k <= MaxMagnitude ==>
              |StdUnits[k]| == 2 && StdUnits[k][1] == 'B' && IecUnits[k] == [StdUnits[k][0]] + "iB"
    ensures FormatStandard != FormatIEC
  {
  }

  /** The parser's upper-case IEC names are ToUpper of the table entries. */
  lemma {:induction false} UpperIec(k: nat)
    requires k <= MaxMagnitude
    ensures ToUpper(IecUnits[k]) == UpperIecUnits[k]
  {
    var u := ToUpper(IecUnits[k]);
    assert |u| == |UpperIecUnits[k]|;
    forall i | 0 <= i < |u|
      ensures u[i] == UpperIecUnits[k][i]
    {
    }
  }

  /** The shapes the parser relies on: standard names past the byte are
      two letters, upper-case IEC names three with 'I' in the middle, and
      the prefix letters are distinct upper-case letters shared by the two
      tables. */
  lemma UpperTableShapes()
    ensures forall k :: 1 <= k <= MaxMagnitude ==>
              |StdUnits[k]| == 2 && |UpperIecUnits[k]| == 3 && UpperIecUnits[k][1] == 'I'
              && StdUnits[k][0] != 'I' && UpperIecUnits[k][0] == StdUnits[k][0]
              && 'A' <= StdUnits[k][0] <= 'Z'
    ensures forall i, j :: 1 <= i <= MaxMagnitude && 1 <= j <= MaxMagnitude && i != j ==>
              StdUnits[i][0] != StdUnits[j][0]
  {
  }

  /** No unit name the parser looks for ends with another one: whichever
      matches a string, it is the only one. */
  lemma {:induction false} SuffixFree(i: nat, j: nat)
    requires 1 <= i <= MaxMagnitude && 1 <= j <= MaxMagnitude
    ensures !HasSuffix(UpperIecUnits[j], StdUnits[i])
    ensures !HasSuffix(StdUnits[j], UpperIecUnits[i])
    ensures i != j ==> !HasSuffix(StdUnits[j], StdUnits[i])
    ensures i != j ==> !HasSuffix(UpperIecUnits[j], UpperIecUnits[i])
  {
    UpperTableShapes();
    var s, u := StdUnits[i], UpperIecUnits[j];
    assert u[1..][0] != s[0];
    if i != j {
      assert StdUnits[j][0..][0] != s[0];
      assert u[0..][0] != UpperIecUnits[i][0];
    }
  }
}
