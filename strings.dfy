/**
  String helpers shared by the Java and Python parts of the model: prefix and
  suffix tests, substring search, the two `replace` operations (Java's
  character replacement and Python's substring replacement), decimal digits,
  Python's whitespace and `rstrip`, and the last segment of a path.
*/
module Strings {
  import opened Wrappers

  predicate StartsWith(s: string, p: string) {
    |p| <= |s| && s[..|p|] == p
  }

  predicate EndsWith(s: string, p: string) {
    |p| <= |s| && s[|s| - |p|..] == p
  }

  /** `p` occurs in `s` starting at index `i`. */
  predicate OccursAt(s: string, p: string, i: nat) {
    i + |p| <= |s| && s[i..i + |p|] == p
  }

  predicate Contains(s: string, p: string) {
    exists i: nat | i <= |s| :: OccursAt(s, p, i)
  }

  /**
    Python's `s.replace(pat, rep)` for a non-empty pattern: the occurrences
    are found left to right and do not overlap, and the replacement text is
    never searched again.
  */
  function ReplaceAll(s: string, pat: string, rep: string): string
    requires |pat| > 0
    decreases |s|
  {
    if |s| < |pat| then s
    else if s[..|pat|] == pat then rep + ReplaceAll(s[|pat|..], pat, rep)
    else [s[0]] + ReplaceAll(s[1..], pat, rep)
  }

  /** Replacing a pattern that does not occur changes nothing. */
  lemma {:induction false} ReplaceAllAbsent(s: string, pat: string, rep: string)
    requires |pat| > 0 && !Contains(s, pat)
    ensures ReplaceAll(s, pat, rep) == s
    decreases |s|
  {
    if |s| >= |pat| {
      assert !OccursAt(s, pat, 0);
      assert s[..|pat|] != pat;
      assert !Contains(s[1..], pat) by {
        forall i: nat | OccursAt(s[1..], pat, i) ensures OccursAt(s, pat, i + 1) {
          assert s[1..][i..i + |pat|] == s[i + 1..i + 1 + |pat|];
        }
      }
      ReplaceAllAbsent(s[1..], pat, rep);
      assert [s[0]] + s[1..] == s;
    }
  }

  /** Replacing a one-character pattern by text without that character removes it everywhere. */
  lemma {:induction false} ReplaceAllRemovesChar(s: string, c: char, rep: string)
    requires c !in rep
    ensures c !in ReplaceAll(s, [c], rep)
    decreases |s|
  {
    if |s| >= 1 {
      if s[..1] == [c] {
        ReplaceAllRemovesChar(s[1..], c, rep);
      } else {
        assert s[0] != c by { assert s[..1][0] == s[0]; }
        ReplaceAllRemovesChar(s[1..], c, rep);
      }
    }
  }

  /** A character in neither the text nor the replacement is not in the result. */
  lemma {:induction false} ReplaceAllKeepsAbsent(s: string, pat: string, rep: string, c: char)
    requires |pat| > 0 && c !in s && c !in rep
    ensures c !in ReplaceAll(s, pat, rep)
    decreases |s|
  {
    if |s| >= |pat| {
      if s[..|pat|] == pat {
        assert forall k :: 0 <= k < |s[|pat|..]| ==> s[|pat|..][k] == s[|pat| + k];
        ReplaceAllKeepsAbsent(s[|pat|..], pat, rep, c);
      } else {
        assert forall k :: 0 <= k < |s[1..]| ==> s[1..][k] == s[1 + k];
        ReplaceAllKeepsAbsent(s[1..], pat, rep, c);
      }
    }
  }

  /** Replacing one character by another one, everywhere, is the character-wise substitution. */
  lemma {:induction false} ReplaceAllOneChar(s: string, c: char, d: char)
    ensures ReplaceAll(s, [c], [d]) == ReplaceChar(s, c, d)
    decreases |s|
  {
    if |s| >= 1 {
      assert s[..1] == [c] <==> s[0] == c by { assert s[..1][0] == s[0]; }
      ReplaceAllOneChar(s[1..], c, d);
    }
  }

  /** Text that starts with the pattern has that occurrence replaced first. */
  lemma ReplaceAllLeading(pat: string, s: string, rep: string)
    requires |pat| > 0
    ensures ReplaceAll(pat + s, pat, rep) == rep + ReplaceAll(s, pat, rep)
  {
    assert (pat + s)[..|pat|] == pat;
    assert (pat + s)[|pat|..] == s;
  }

  /** Appending a character other than the pattern's last one creates no occurrence. */
  lemma NotContainsAppend(s: string, p: string, c: char)
    requires |p| > 0 && p[|p| - 1] != c && !Contains(s, p)
    ensures !Contains(s + [c], p)
  {
    forall i: nat | i <= |s + [c]| && OccursAt(s + [c], p, i) ensures false {
      if i + |p| <= |s| {
        assert (s + [c])[i..i + |p|] == s[i..i + |p|];
        assert OccursAt(s, p, i);
      }
    }
  }

  /** Java's `String.replace(char, char)`: every occurrence of `from` becomes `to`. */
  function ReplaceChar(s: string, from: char, to: char): (r: string)
    ensures |r| == |s|
    ensures forall i :: 0 <= i < |s| ==> r[i] == (if s[i] == from then to else s[i])
  {
    if s == [] then []
    else [if s[0] == from then to else s[0]] + ReplaceChar(s[1..], from, to)
  }

  predicate IsDigit(c: char) {
    '0' <= c <= '9'
  }

  predicate AllDigits(s: string) {
    forall i :: 0 <= i < |s| ==> IsDigit(s[i])
  }

  function DigitValue(c: char): nat
    requires IsDigit(c)
  {
    (c as int) - ('0' as int)
  }

  function DigitChar(d: nat): (c: char)
    requires d < 10
    ensures IsDigit(c) && DigitValue(c) == d
  {
    (('0' as int) + d) as char
  }

  /** The value of a string of decimal digits, most significant first. */
  function DecimalValue(s: string): nat
    requires AllDigits(s)
  {
    if s == [] then 0 else 10 * DecimalValue(s[..|s| - 1]) + DigitValue(s[|s| - 1])
  }

  /** The digits of a signed decimal text: `s` without its leading '-' or '+', if it has one. */
  function Magnitude(s: string): (m: string)
    ensures |m| <= |s|
    ensures EndsWith(s, m)
  {
    if |s| > 0 && (s[0] == '-' || s[0] == '+') then s[1..] else s
  }

  /** An optional sign followed by at least one decimal digit (leading zeros allowed). */
  predicate IsSignedDecimal(s: string) {
    |Magnitude(s)| > 0 && AllDigits(Magnitude(s))
  }

  /** The value of a signed decimal text: its digits' value, negated after a '-'. */
  function SignedDecimalValue(s: string): int
    requires IsSignedDecimal(s)
  {
    (if s[0] == '-' then -1 else 1) * DecimalValue(Magnitude(s))
  }

  /**
    An optional sign ('-' negates, '+' is ignored) followed by at least one
    decimal digit, read as an unbounded integer.
  */
  function ParseInteger(s: string): (r: Option<int>)
    ensures r.Some? <==> IsSignedDecimal(s)
    ensures r.Some? ==> r.value == SignedDecimalValue(s)
    ensures r.Some? ==> |s| > 0 && forall i :: 0 < i < |s| ==> IsDigit(s[i])
    ensures r.Some? ==> IsDigit(s[0]) || ((s[0] == '-' || s[0] == '+') && |s| > 1)
  {
    if IsSignedDecimal(s) then
      assert forall i :: 0 < i < |s| ==> s[i] == Magnitude(s)[i - |s| + |Magnitude(s)|];
      Some(SignedDecimalValue(s))
    else None
  }

  /** The shortest decimal rendering of a natural number. */
  function NatToDecimal(n: nat): (s: string)
    ensures |s| > 0 && AllDigits(s)
  {
    if n < 10 then [DigitChar(n)] else NatToDecimal(n / 10) + [DigitChar(n % 10)]
  }

  /** Reading back a decimal rendering gives the number. */
  lemma {:induction false} DecimalRoundTrip(n: nat)
    ensures DecimalValue(NatToDecimal(n)) == n
    ensures ParseInteger(NatToDecimal(n)) == Some(n)
  {
    var s := NatToDecimal(n);
    if n < 10 {
      assert s[..0] == [];
    } else {
      DecimalRoundTrip(n / 10);
      assert s[..|s| - 1] == NatToDecimal(n / 10);
    }
    assert IsDigit(s[0]);
  }

  /**
    Python's `str.isspace` for one character: the ASCII whitespace and
    separators, NEL, NO-BREAK SPACE and the Unicode space separators.
  */
  predicate IsPythonWhitespace(c: char) {
    c == ' ' || c == '\t' || c == '\n' || c == '\r' || c == '\U{000B}' || c == '\U{000C}'
    || ('\U{001C}' <= c <= '\U{001F}') || c == '\U{0085}' || c == '\U{00A0}' || c == '\U{1680}'
    || ('\U{2000}' <= c <= '\U{200A}') || c == '\U{2028}' || c == '\U{2029}' || c == '\U{202F}'
    || c == '\U{205F}' || c == '\U{3000}'
  }

  /** Python's `s.rstrip()`: drops trailing whitespace and nothing else. */
  function RStrip(s: string): (r: string)
    ensures StartsWith(s, r)
    ensures forall i :: |r| <= i < |s| ==> IsPythonWhitespace(s[i])
    ensures r == [] || !IsPythonWhitespace(r[|r| - 1])
  {
    if s == [] || !IsPythonWhitespace(s[|s| - 1]) then s else RStrip(s[..|s| - 1])
  }

  /** `java.io.File.getName()` of a path whose separator is '/': the text after the last separator. */
  function LastSegment(path: string): (name: string)
    ensures EndsWith(path, name)
    ensures '/' !in name
    ensures |name| < |path| ==> path[|path| - |name| - 1] == '/'
  {
    if path == [] then []
    else if path[|path| - 1] == '/' then []
    else LastSegment(path[..|path| - 1]) + [path[|path| - 1]]
  }
}
