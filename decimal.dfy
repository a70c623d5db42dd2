/** Python's `str(k)` for a natural number, used to build operator names. */
module Decimal {

  predicate IsDigit(c: char)
  {
    '0' <= c <= '9'
  }

  /** The character of a decimal digit. */
  function DigitChar(k: nat): (c: char)
    requires k < 10
    ensures IsDigit(c) && c as int - '0' as int == k
  {
    (k + '0' as int) as char
  }

  /** `str(k)`: the shortest decimal numeral of `k`. */
  function NatToString(k: nat): (r: string)
    ensures |r| >= 1 && forall i :: 0 <= i < |r| ==> IsDigit(r[i])
  {
    if k < 10 then [DigitChar(k)] else NatToString(k / 10) + [DigitChar(k % 10)]
  }

  /** The value of a string of decimal digits (`int(s)`). */
  function Parse(s: string): nat
    requires forall i :: 0 <= i < |s| ==> IsDigit(s[i])
  {
    if |s| == 0 then 0
    else
      assert forall i :: 0 <= i < |s| - 1 ==> s[..|s| - 1][i] == s[i];
      Parse(s[..|s| - 1]) * 10 + DigitValue(s[|s| - 1])
  }

  /** The value of one decimal digit. */
  function DigitValue(c: char): (v: nat)
    requires IsDigit(c)
    ensures v < 10 && DigitChar(v) == c
  {
    c as int - '0' as int
  }

  /** Reading a numeral back gives the number: `int(str(k)) == k`. */
  lemma {:induction false} ParseNatToString(k: nat)
    ensures Parse(NatToString(k)) == k
  {
    if k >= 10 {
      ParseNatToString(k / 10);
      var s := NatToString(k);
      assert s[..|s| - 1] == NatToString(k / 10);
    }
  }

  /** Different numbers have different numerals. */
  lemma NatToStringInjective(k: nat, l: nat)
    requires NatToString(k) == NatToString(l)
    ensures k == l
  {
    ParseNatToString(k);
    ParseNatToString(l);
  }

  /** One-digit numbers are exactly those below 10. */
  lemma NatToStringLength(k: nat)
    ensures |NatToString(k)| == 1 <==> k < 10
  {
    if k >= 10 {
      assert |NatToString(k)| == |NatToString(k / 10)| + 1;
    }
  }
}
