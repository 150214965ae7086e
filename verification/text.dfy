/** The string helpers of Go's standard library that the parser relies on:
    strings.TrimSpace (with unicode.IsSpace), strings.ToUpper and
    strings.CutSuffix. A Go string is modelled as the sequence of its
    Unicode code points. */
module Text {
  import opened Prelude

  /** unicode.IsSpace: the Latin-1 spaces '\t', '\n', '\v', '\f', '\r',
      ' ', U+0085 and U+00A0, and the characters of the Unicode White_Space
      property above Latin-1. */
  predicate IsSpace(c: char) {
    var n := c as int;
    || (9 <= n <= 13) || n == 32 || n == 0x85 || n == 0xA0
    || n == 0x1680 || (0x2000 <= n <= 0x200A)
    || n == 0x2028 || n == 0x2029 || n == 0x202F || n == 0x205F || n == 0x3000
  }

  /** s with its leading white space removed. */
  function TrimLeft(s: string): (r: string)
    ensures |r| <= |s| && r == s[|s| - |r|..]
    ensures forall i :: 0 <= i < |s| - |r| ==> IsSpace(s[i])
    ensures r == [] || !IsSpace(r[0])
  {
    if |s| > 0 && IsSpace(s[0]) then TrimLeft(s[1..]) else s
  }

  /** s with its trailing white space removed. */
  function TrimRight(s: string): (r: string)
    ensures |r| <= |s| && r == s[..|r|]
    ensures forall i :: |r| <= i < |s| ==> IsSpace(s[i])
    ensures r == [] || !IsSpace(r[|r| - 1])
  {
    if |s| > 0 && IsSpace(s[|s| - 1]) then TrimRight(s[..|s| - 1]) else s
  }

  /** strings.TrimSpace: s without leading and trailing white space. The
      result is the slice s[lo..hi] whose ends are not white space and
      outside of which everything is. */
  function TrimSpace(s: string): (r: string)
    ensures exists lo, hi :: 0 <= lo <= hi <= |s| && r == s[lo..hi] && Trimmed(s, lo, hi)
                             && (lo == hi || (!IsSpace(s[lo]) && !IsSpace(s[hi - 1])))
  {
    var l := TrimLeft(s);
    var r := TrimRight(l);
    var lo := |s| - |l|;
    assert r == s[lo..lo + |r|];
    assert Trimmed(s, lo, lo + |r|);
    assert r == [] || (!IsSpace(s[lo]) && !IsSpace(s[lo + |r| - 1]));
    r
  }

  /** Everything of s outside s[lo..hi] is white space. */
  predicate Trimmed(s: string, lo: nat, hi: nat)
    requires lo <= hi <= |s|
  {
    (forall i :: 0 <= i < lo ==> IsSpace(s[i])) && (forall i :: hi <= i < |s| ==> IsSpace(s[i]))
  }

  /** TrimLeft stops at the first non-space character. */
  lemma {:induction false} TrimLeftUnique(s: string, k: nat)
    requires k <= |s| && forall i :: 0 <= i < k ==> IsSpace(s[i])
    requires k == |s| || !IsSpace(s[k])
    ensures TrimLeft(s) == s[k..]
  {
    if k > 0 {
      TrimLeftUnique(s[1..], k - 1);
      assert s[1..][k - 1..] == s[k..];
    }
  }

  /** TrimRight stops at the last non-space character. */
  lemma {:induction false} TrimRightUnique(s: string, k: nat)
    requires k <= |s| && forall i :: k <= i < |s| ==> IsSpace(s[i])
    requires k == 0 || !IsSpace(s[k - 1])
    ensures TrimRight(s) == s[..k]
  {
    if k < |s| {
      TrimRightUnique(s[..|s| - 1], k);
      assert s[..|s| - 1][..k] == s[..k];
    }
  }

  /** Trimming is determined by the characterisation above: any slice with
      non-space ends and only white space around it is the result. */
  lemma {:induction false} TrimSpaceUnique(s: string, lo: nat, hi: nat)
    requires lo <= hi <= |s| && Trimmed(s, lo, hi)
    requires lo == hi || (!IsSpace(s[lo]) && !IsSpace(s[hi - 1]))
    ensures TrimSpace(s) == s[lo..hi]
  {
    if lo == hi {
      TrimLeftUnique(s, |s|);
    } else {
      TrimLeftUnique(s, lo);
      TrimRightOfSlice(s, lo, hi);
    }
  }

  lemma {:induction false} TrimRightOfSlice(s: string, lo: nat, hi: nat)
    requires lo < hi <= |s| && forall i :: hi <= i < |s| ==> IsSpace(s[i])
    requires !IsSpace(s[hi - 1])
    ensures TrimRight(s[lo..]) == s[lo..hi]
  {
    var l := s[lo..];
    forall i | hi - lo <= i < |l|
      ensures IsSpace(l[i])
    {
      assert l[i] == s[lo + i];
    }
    TrimRightUnique(l, hi - lo);
    assert l[..hi - lo] == s[lo..hi];
  }

  /** Trimming twice is trimming once. */
  lemma {:induction false} TrimSpaceIdempotent(s: string)
    ensures TrimSpace(TrimSpace(s)) == TrimSpace(s)
  {
    var r := TrimSpace(s);
    TrimSpaceUnique(r, 0, |r|);
  }

  /** The upper-case mapping of one character as far as it can produce an
      ASCII character: 'a'..'z', and the two non-ASCII letters whose
      upper case is ASCII, dotless i (U+0131) and long s (U+017F). */
  function UpperChar(c: char): (u: char)
    ensures 'a' <= c <= 'z' ==> u as int == c as int - 32
    ensures !('a' <= c <= 'z') && c != '\U{0131}' && c != '\U{017F}' ==> u == c
  {
    if 'a' <= c <= 'z' then (c as int - 32) as char
    else if c == '\U{0131}' then 'I'
    else if c == '\U{017F}' then 'S'
    else c
  }

  /** strings.ToUpper, character by character: no lower-case ASCII letter
      is left, and white space stays white space in the same place. */
  function ToUpper(s: string): (r: string)
    ensures |r| == |s| && forall i :: 0 <= i < |s| ==> r[i] == UpperChar(s[i])
    ensures forall i :: 0 <= i < |r| ==> !('a' <= r[i] <= 'z')
    ensures forall i :: 0 <= i < |s| ==> (IsSpace(r[i]) <==> IsSpace(s[i]))
  {
    seq(|s|, i requires 0 <= i < |s| => UpperChar(s[i]))
  }

  /** No lower-case ASCII letter survives ToUpper. */
  lemma {:induction false} ToUpperHasNoLower(s: string)
    ensures forall i :: 0 <= i < |s| ==> !('a' <= ToUpper(s)[i] <= 'z')
  {
  }

  /** Upper-casing is idempotent. */
  lemma {:induction false} ToUpperIdempotent(s: string)
    ensures ToUpper(ToUpper(s)) == ToUpper(s)
  {
  }

  /** Upper-casing keeps white space and keeps non-space characters
      non-space, so it commutes with trimming. */
  lemma {:induction false} ToUpperTrimSpace(s: string)
    ensures ToUpper(TrimSpace(s)) == TrimSpace(ToUpper(s))
  {
    var r := TrimSpace(s);
    var lo, hi :| 0 <= lo <= hi <= |s| && r == s[lo..hi] && Trimmed(s, lo, hi)
                  && (lo == hi || (!IsSpace(s[lo]) && !IsSpace(s[hi - 1])));
    ToUpperSlice(s, lo, hi);
    UpperTrimmed(s, lo, hi);
    TrimSpaceUnique(ToUpper(s), lo, hi);
  }

  lemma {:induction false} ToUpperSlice(s: string, lo: nat, hi: nat)
    requires lo <= hi <= |s|
    ensures ToUpper(s[lo..hi]) == ToUpper(s)[lo..hi]
  {
  }

  lemma {:induction false} UpperTrimmed(s: string, lo: nat, hi: nat)
    requires lo <= hi <= |s| && Trimmed(s, lo, hi)
    requires lo == hi || (!IsSpace(s[lo]) && !IsSpace(s[hi - 1]))
    ensures Trimmed(ToUpper(s), lo, hi)
    ensures lo == hi || (!IsSpace(ToUpper(s)[lo]) && !IsSpace(ToUpper(s)[hi - 1]))
  {
    forall i | 0 <= i < |s| {
      UpperCharSpace(s[i]);
    }
  }

  /** Upper-casing neither creates nor removes white space. */
  lemma {:induction false} UpperCharSpace(c: char)
    ensures IsSpace(UpperChar(c)) <==> IsSpace(c)
  {
  }

  /** s ends with suffix. */
  predicate HasSuffix(s: string, suffix: string) {
    |suffix| <= |s| && s[|s| - |suffix|..] == suffix
  }

  lemma {:induction false} ConcatAssoc(a: string, b: string, c: string)
    ensures (a + b) + c == a + (b + c)
  {
  }

  /** a + t ends with t, and cutting t off gives back a. */
  lemma {:induction false} SuffixOfConcat(a: string, t: string)
    ensures HasSuffix(a + t, t) && (a + t)[..|a|] == a
  {
    assert (a + t)[|a|..] == t;
  }

  /** strings.CutSuffix: the part of s before suffix, if s ends with it. */
  function CutSuffix(s: string, suffix: string): (r: Option<string>)
    ensures r.Some? <==> HasSuffix(s, suffix)
    ensures r.Some? ==> r.value + suffix == s
  {
    if HasSuffix(s, suffix) then Some(s[..|s| - |suffix|]) else None
  }

  /** Upper-casing works character by character, so it distributes over
      concatenation. */
  lemma {:induction false} ToUpperConcat(a: string, b: string)
    ensures ToUpper(a + b) == ToUpper(a) + ToUpper(b)
  {
  }

  /** A string without lower-case letters (nor the two letters whose upper
      case is ASCII) is its own upper case. */
  lemma {:induction false} ToUpperUnchanged(s: string)
    requires forall i :: 0 <= i < |s| ==> UpperChar(s[i]) == s[i]
    ensures ToUpper(s) == s
  {
  }

  /** White space around a string does not change its trimmed form. */
  lemma {:induction false} TrimSpaceSurrounded(l: string, s: string, r: string)
    requires forall i :: 0 <= i < |l| ==> IsSpace(l[i])
    requires forall i :: 0 <= i < |r| ==> IsSpace(r[i])
    ensures TrimSpace(l + s + r) == TrimSpace(s)
  {
    var t := TrimSpace(s);
    var lo, hi :| 0 <= lo <= hi <= |s| && t == s[lo..hi] && Trimmed(s, lo, hi)
                  && (lo == hi || (!IsSpace(s[lo]) && !IsSpace(s[hi - 1])));
    SurroundedTrimmed(l, s, r, lo, hi);
    var lo', hi' := if lo == hi then 0 else |l| + lo, if lo == hi then 0 else |l| + hi;
    TrimSpaceUnique(l + s + r, lo', hi');
  }

  /** The trimmed slice s[lo..hi] sits at the same place, shifted by |l|,
      in l + s + r; when it is empty, all of l + s + r is white space. */
  lemma {:induction false} SurroundedTrimmed(l: string, s: string, r: string, lo: nat, hi: nat)
    requires forall i :: 0 <= i < |l| ==> IsSpace(l[i])
    requires forall i :: 0 <= i < |r| ==> IsSpace(r[i])
    requires lo <= hi <= |s| && Trimmed(s, lo, hi)
    requires lo == hi || (!IsSpace(s[lo]) && !IsSpace(s[hi - 1]))
    ensures var x, lo', hi' := l + s + r, (if lo == hi then 0 else |l| + lo), (if lo == hi then 0 else |l| + hi);
            && lo' <= hi' <= |x| && Trimmed(x, lo', hi') && x[lo'..hi'] == s[lo..hi]
            && (lo' == hi' || (!IsSpace(x[lo']) && !IsSpace(x[hi' - 1])))
  {
    var x := l + s + r;
    forall i | 0 <= i < |x|
      ensures IsSpace(x[i]) || (lo < hi && |l| + lo <= i < |l| + hi)
    {
      SurroundedChar(l, s, r, i);
    }
    if lo < hi {
      SurroundedChar(l, s, r, |l| + lo);
      SurroundedChar(l, s, r, |l| + hi - 1);
      assert x[|l| + lo..|l| + hi] == s[lo..hi];
    }
  }

  lemma {:induction false} SurroundedChar(l: string, s: string, r: string, i: nat)
    requires i < |l| + |s| + |r|
    ensures (l + s + r)[i] == if i < |l| then l[i] else if i < |l| + |s| then s[i - |l|] else r[i - |l| - |s|]
  {
  }

  /** A string whose ends are not white space is already trimmed. */
  lemma {:induction false} TrimSpaceNoop(s: string)
    requires s == [] || (!IsSpace(s[0]) && !IsSpace(s[|s| - 1]))
    ensures TrimSpace(s) == s
  {
    TrimSpaceUnique(s, 0, |s|);
    assert s[0..|s|] == s;
  }
}
