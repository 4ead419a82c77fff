/**
 * String helpers shared by the model: ASCII digits and the exact decimal
 * rendering of naturals (what JavaScript's `String(n)` and template-literal
 * interpolation write for a non-negative integer up to 2^53), ECMAScript
 * whitespace, and `String.prototype.trim`.
 */
module Strings {

  predicate IsDigit(c: char) {
    '0' <= c <= '9'
  }

  predicate AllDigits(s: string) {
    forall k | 0 <= k < |s| :: IsDigit(s[k])
  }

  predicate StartsWith(s: string, prefix: string) {
    |prefix| <= |s| && s[..|prefix|] == prefix
  }

  predicate EndsWith(s: string, suffix: string) {
    |suffix| <= |s| && s[|s| - |suffix|..] == suffix
  }

  function DigitChar(d: nat): (c: char)
    requires d < 10
    ensures IsDigit(c)
  {
    ('0' as int + d) as char
  }

  function DigitValue(c: char): (d: nat)
    requires IsDigit(c)
    ensures d < 10
    ensures DigitChar(d) == c
  {
    c as int - '0' as int
  }

  /** JavaScript writes an integer without an exponent only below 10^21;
      from there on it uses exponent form ("1e+21"). Below the bound its text
      is still all digits with no leading zero, but above 2^53 those digits
      are the shortest ones that round-trip, padded with zeros, not the exact
      value's. */
  const PlainDecimalBound: nat := 1_000_000_000_000_000_000_000

  /** Exact decimal rendering of a natural number, most significant digit
      first, without leading zeros; JavaScript's rendering up to 2^53. */
  function NatToString(n: nat): (s: string)
    ensures |s| > 0 && AllDigits(s)
    ensures |s| == 1 <==> n < 10
    ensures |s| > 1 ==> s[0] != '0'
    decreases n
  {
    if n < 10 then [DigitChar(n)] else NatToString(n / 10) + [DigitChar(n % 10)]
  }

  /** The value of a string of decimal digits (the empty string reads as 0). */
  function ParseDigits(s: string): nat
    requires AllDigits(s)
  {
    if |s| == 0 then 0 else ParseDigits(s[..|s| - 1]) * 10 + DigitValue(s[|s| - 1])
  }

  /** Reading back a rendered natural gives the natural. */
  lemma {:induction false} ParseNatToString(n: nat)
    ensures ParseDigits(NatToString(n)) == n
    decreases n
  {
    var s := NatToString(n);
    if n >= 10 {
      ParseNatToString(n / 10);
      assert s[..|s| - 1] == NatToString(n / 10);
      assert DigitValue(s[|s| - 1]) == n % 10 by {
        assert DigitChar(DigitValue(s[|s| - 1])) == DigitChar(n % 10);
      }
    } else {
      assert s[..|s| - 1] == [];
      assert DigitChar(DigitValue(s[0])) == DigitChar(n);
    }
  }

  /** A digit string without a leading zero has a positive value. */
  lemma {:induction false} ParseDigitsPositive(s: string)
    requires AllDigits(s) && |s| > 0 && s[0] != '0'
    ensures ParseDigits(s) >= 1
    decreases |s|
  {
    if |s| == 1 {
      assert s[..0] == [];
    } else {
      var p := s[..|s| - 1];
      assert p[0] == s[0];
      ParseDigitsPositive(p);
    }
  }

  /** Rendering the value of a canonical digit string (non-empty, no leading
      zero) gives the string back: rendering is onto the canonical strings. */
  lemma {:induction false} NatToStringParse(s: string)
    requires AllDigits(s) && |s| > 0 && (|s| > 1 ==> s[0] != '0')
    ensures NatToString(ParseDigits(s)) == s
    decreases |s|
  {
    var p := s[..|s| - 1];
    var d := DigitValue(s[|s| - 1]);
    if |s| == 1 {
      assert p == [];
      assert NatToString(ParseDigits(s)) == [DigitChar(d)];
    } else {
      assert p[0] == s[0];
      ParseDigitsPositive(p);
      NatToStringParse(p);
      var v := ParseDigits(s);
      assert v == ParseDigits(p) * 10 + d;
      assert v / 10 == ParseDigits(p) && v % 10 == d;
      assert s == p + [s[|s| - 1]];
    }
  }

  /** Decimal rendering is injective. */
  lemma NatToStringInjective(m: nat, n: nat)
    ensures NatToString(m) == NatToString(n) ==> m == n
  {
    ParseNatToString(m);
    ParseNatToString(n);
  }

  /** ECMAScript WhiteSpace or LineTerminator: the characters matched by the
      regular-expression class `\s` and removed by `String.prototype.trim`. */
  predicate IsSpace(c: char) {
    || c == '\t' || c == '\n' || c == '\U{000B}' || c == '\U{000C}' || c == '\r'
    || c == ' ' || c == '\U{00A0}' || c == '\U{1680}'
    || ('\U{2000}' <= c <= '\U{200A}')
    || c == '\U{2028}' || c == '\U{2029}' || c == '\U{202F}' || c == '\U{205F}'
    || c == '\U{3000}' || c == '\U{FEFF}'
  }

  predicate AllSpace(s: string) {
    forall k | 0 <= k < |s| :: IsSpace(s[k])
  }

  /** Number of whitespace characters at the start of `s`. */
  function LeadingSpaces(s: string): (n: nat)
    ensures n <= |s|
    ensures AllSpace(s[..n])
    ensures forall k | 0 <= k < n :: IsSpace(s[k])
    ensures n < |s| ==> !IsSpace(s[n])
  {
    if |s| == 0 || !IsSpace(s[0]) then 0
    else
      var n := 1 + LeadingSpaces(s[1..]);
      assert forall k | 1 <= k < n :: s[k] == s[1..][k - 1];
      n
  }

  /** Number of whitespace characters at the end of `s`. */
  function TrailingSpaces(s: string): (n: nat)
    ensures n <= |s|
    ensures AllSpace(s[|s| - n..])
    ensures forall k | |s| - n <= k < |s| :: IsSpace(s[k])
    ensures n < |s| ==> !IsSpace(s[|s| - n - 1])
  {
    if |s| == 0 || !IsSpace(s[|s| - 1]) then 0
    else
      var p := s[..|s| - 1];
      var n := 1 + TrailingSpaces(p);
      assert forall k | |s| - n <= k < |s| - 1 :: s[k] == p[k];
      n
  }

  /** `String.prototype.trim`: `s` without its leading and trailing whitespace. */
  function Trim(s: string): (r: string)
    ensures |r| <= |s|
    ensures |r| > 0 ==> !IsSpace(r[0]) && !IsSpace(r[|r| - 1])
    ensures exists i | 0 <= i <= |s| - |r| ::
              s[i..i + |r|] == r && AllSpace(s[..i]) && AllSpace(s[i + |r|..])
  {
    var i := LeadingSpaces(s);
    var t := s[i..];
    var n := TrailingSpaces(t);
    var j := |t| - n;
    var r := t[..j];
    assert s[i..i + |r|] == r;
    assert s[i + |r|..] == t[j..];
    assert AllSpace(s[..i]) && AllSpace(s[i + |r|..]);
    assert |r| > 0 ==> r[0] == s[i] && r[|r| - 1] == t[|t| - n - 1];
    r
  }

  /** The unique split point: a space run that stops at a non-space (or at
      the end) is exactly the leading-space count. */
  lemma LeadingSpacesExact(s: string, m: nat)
    requires m <= |s| && AllSpace(s[..m]) && (m < |s| ==> !IsSpace(s[m]))
    ensures LeadingSpaces(s) == m
  {
    var n := LeadingSpaces(s);
    assert forall k | 0 <= k < m :: s[..m][k] == s[k];
    assert !(n < m) && !(n > m);
  }

  lemma TrailingSpacesExact(s: string, m: nat)
    requires m <= |s| && AllSpace(s[|s| - m..]) && (m < |s| ==> !IsSpace(s[|s| - m - 1]))
    ensures TrailingSpaces(s) == m
  {
    var n := TrailingSpaces(s);
    assert forall k | |s| - m <= k < |s| :: s[|s| - m..][k - (|s| - m)] == s[k];
    assert !(n < m) && !(n > m);
  }

  /** Trimming undoes whitespace padding of any text whose ends are not
      whitespace. */
  lemma TrimPadded(pre: string, core: string, post: string)
    requires AllSpace(pre) && AllSpace(post)
    requires |core| > 0 ==> !IsSpace(core[0]) && !IsSpace(core[|core| - 1])
    ensures Trim(pre + core + post) == core
  {
    var s := pre + core + post;
    if |core| == 0 {
      assert s == pre + post;
      assert AllSpace(s[..|s|]) by { assert s[..|s|] == s; }
      LeadingSpacesExact(s, |s|);
      assert s[|s|..] == [];
    } else {
      assert s[..|pre|] == pre;
      assert s[|pre|] == core[0];
      LeadingSpacesExact(s, |pre|);
      var t := s[|pre|..];
      assert t == core + post;
      assert t[|t| - |post|..] == post;
      assert t[|t| - |post| - 1] == core[|core| - 1];
      TrailingSpacesExact(t, |post|);
      assert t[..|t| - |post|] == core;
    }
  }

  /** Text without whitespace at either end is its own trim. */
  lemma TrimUnpadded(s: string)
    requires |s| > 0 ==> !IsSpace(s[0]) && !IsSpace(s[|s| - 1])
    ensures Trim(s) == s
  {
    TrimPadded("", s, "");
    assert "" + s + "" == s;
  }
}
