/**
  Decimal text of a non-negative integer, as Python's str() writes it, and the
  reading that undoes it.
 */
module Decimal {

  predicate IsDigit(ch: char) {
    '0' <= ch <= '9'
  }

  /** A non-empty string of decimal digits. */
  predicate IsDecimal(s: string) {
    |s| >= 1 && forall i | 0 <= i < |s| :: IsDigit(s[i])
  }

  function DigitChar(d: nat): (ch: char)
    requires d < 10
    ensures IsDigit(ch) && ch as int - '0' as int == d
  {
    ('0' as int + d) as char
  }

  function DigitValue(ch: char): (d: nat)
    requires IsDigit(ch)
    ensures d < 10
  {
    ch as int - '0' as int
  }

  /** str(n): most significant digit first, no leading zero. */
  function FromNat(n: nat): (s: string)
    ensures IsDecimal(s)
    ensures s[0] == '0' ==> n == 0
    decreases n
  {
    if n < 10 then [DigitChar(n)] else FromNat(n / 10) + [DigitChar(n % 10)]
  }

  /** int(s) for a string of digits. */
  function ToNat(s: string): nat
    requires forall i | 0 <= i < |s| :: IsDigit(s[i])
    decreases |s|
  {
    if s == [] then 0 else 10 * ToNat(s[..|s| - 1]) + DigitValue(s[|s| - 1])
  }

  /** Reading back the text of n gives n. */
  lemma {:induction false} ToNatFromNat(n: nat)
    ensures ToNat(FromNat(n)) == n
  {
    if n >= 10 {
      var s := FromNat(n);
      ToNatFromNat(n / 10);
      assert s[..|s| - 1] == FromNat(n / 10);
    }
  }

  /** A digit string starting with a non-zero digit denotes a positive number. */
  lemma {:induction false} ToNatPositive(s: string)
    requires IsDecimal(s) && s[0] != '0'
    ensures ToNat(s) >= 1
  {
    if |s| > 1 {
      ToNatPositive(s[..|s| - 1]);
    }
  }

  /** Every digit string without a leading zero is the text of the number it denotes. */
  lemma {:induction false} FromNatToNat(s: string)
    requires IsDecimal(s) && (s[0] == '0' ==> |s| == 1)
    ensures FromNat(ToNat(s)) == s
  {
    if |s| > 1 {
      var p := s[..|s| - 1];
      ToNatPositive(p);
      FromNatToNat(p);
      assert s == p + [s[|s| - 1]];
    }
  }

  /** Distinct numbers have distinct texts. */
  lemma FromNatInjective(m: nat, n: nat)
    requires FromNat(m) == FromNat(n)
    ensures m == n
  {
    ToNatFromNat(m);
    ToNatFromNat(n);
  }
}
