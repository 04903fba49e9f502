/**
 * Decimal printing and parsing of non-negative integers, as used by the
 * confirmation codes ("VX" + an integer) and the seconds-remaining text:
 * Java's string concatenation of an int and Integer.parseInt on a digit string.
 */
module Decimal {
  import opened Wrappers

  predicate IsDigit(c: char) {
    '0' <= c <= '9'
  }

  predicate AllDigits(s: string) {
    forall i :: 0 <= i < |s| ==> IsDigit(s[i])
  }

  function DigitChar(d: nat): (c: char)
    requires d < 10
    ensures IsDigit(c) && c as int - '0' as int == d
  {
    ('0' as int + d) as char
  }

  /** The decimal text of n, without sign or leading zeros. */
  function NatToString(n: nat): (s: string)
    ensures 1 <= |s| && AllDigits(s)
    ensures n < 10 <==> |s| == 1
    ensures |s| > 1 ==> s[0] != '0'
  {
    if n < 10 then [DigitChar(n)] else NatToString(n / 10) + [DigitChar(n % 10)]
  }

  /** The value of a string of decimal digits, most significant first. */
  function DigitsValue(s: string): nat
    requires AllDigits(s)
  {
    if s == [] then 0
    else DigitsValue(s[..|s| - 1]) * 10 + (s[|s| - 1] as int - '0' as int)
  }

  /** Integer.parseInt restricted to unsigned decimal text; None stands for NumberFormatException. */
  function ParseNat(s: string): (r: Option<nat>)
    ensures r.Some? <==> s != [] && AllDigits(s)
  {
    if s != [] && AllDigits(s) then Some(DigitsValue(s)) else None
  }

  /** Parsing inverts printing. */
  lemma {:induction false} ParsePrinted(n: nat)
    ensures ParseNat(NatToString(n)) == Some(n)
  {
    var s := NatToString(n);
    if n >= 10 {
      ParsePrinted(n / 10);
      assert s[..|s| - 1] == NatToString(n / 10);
      assert s[|s| - 1] as int - '0' as int == n % 10;
      assert DigitsValue(s) == (n / 10) * 10 + n % 10;
    }
  }

  /** Distinct numbers print differently. */
  lemma PrintInjective(a: nat, b: nat)
    ensures NatToString(a) == NatToString(b) ==> a == b
  {
    ParsePrinted(a);
    ParsePrinted(b);
  }
}
