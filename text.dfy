/**
 * Character classes and conversions shared by the scripts: ASCII digits (what the
 * regular-expression class `\d` and `int()` accept once restricted to ASCII), decimal
 * parsing and formatting, and Python's `str.rstrip(chars)`.
 */
module Text {

  predicate IsDigit(c: char) {
    '0' <= c <= '9'
  }

  predicate AllDigits(s: string) {
    forall i :: 0 <= i < |s| ==> IsDigit(s[i])
  }

  /** A non-empty run of digits: what `\d+` matches and `int()` parses. */
  predicate IsNumber(s: string) {
    |s| > 0 && AllDigits(s)
  }

  function DigitValue(c: char): (d: nat)
    requires IsDigit(c)
    ensures d < 10
  {
    c as int - '0' as int
  }

  function DigitChar(d: nat): (c: char)
    requires d < 10
    ensures IsDigit(c) && DigitValue(c) == d
  {
    ('0' as int + d) as char
  }

  /** The value `int(s)` gives for a string of decimal digits (leading zeros allowed). */
  function Dec(s: string): nat
    requires AllDigits(s)
  {
    if s == [] then 0 else 10 * Dec(s[..|s| - 1]) + DigitValue(s[|s| - 1])
  }

  /** The decimal text of `n`, as an f-string renders an `int`. */
  function NatToString(n: nat): (s: string)
    ensures IsNumber(s)
    ensures n > 0 ==> s[0] != '0'
  {
    if n < 10 then [DigitChar(n)] else NatToString(n / 10) + [DigitChar(n % 10)]
  }

  /** Parsing what was formatted gives the number back. */
  lemma {:induction false} DecNatToString(n: nat)
    ensures Dec(NatToString(n)) == n
  {
    if n >= 10 {
      var s := NatToString(n);
      assert s[..|s| - 1] == NatToString(n / 10);
      DecNatToString(n / 10);
    }
  }

  /** `s.rstrip(cs)`: the longest prefix of `s` that does not end with a character of `cs`. */
  function RStrip(s: string, cs: set<char>): (r: string)
    ensures r <= s
    ensures r == [] || r[|r| - 1] !in cs
    ensures forall i :: |r| <= i < |s| ==> s[i] in cs
  {
    if s != [] && s[|s| - 1] in cs then RStrip(s[..|s| - 1], cs) else s
  }
}
