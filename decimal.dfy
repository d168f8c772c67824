/**
 * Decimal numerals: the property keys "0", "1", ... under which the type
 * checker lists the positions of a tuple.
 */
module Decimal {

  predicate IsDigit(c: char) {
    '0' <= c <= '9'
  }

  /** `s` is a string of decimal digits. */
  predicate IsNumeral(s: string) {
    forall i :: 0 <= i < |s| ==> IsDigit(s[i])
  }

  function DigitChar(d: nat): (c: char)
    requires d < 10
    ensures IsDigit(c)
  {
    (('0' as int) + d) as char
  }

  function DigitValue(c: char): (d: nat)
    requires IsDigit(c)
    ensures d < 10 && DigitChar(d) == c
  {
    (c as int) - ('0' as int)
  }

  /** The shortest decimal numeral of `n`: digits only, no leading zero. */
  function FromNat(n: nat): (s: string)
    ensures |s| > 0 && IsNumeral(s)
    ensures |s| > 1 ==> s[0] != '0'
    decreases n
  {
    if n < 10 then [DigitChar(n)] else FromNat(n / 10) + [DigitChar(n % 10)]
  }

  /** The number a string of digits denotes. */
  function ToNat(s: string): nat
    requires IsNumeral(s)
    decreases |s|
  {
    if s == [] then 0 else 10 * ToNat(s[..|s| - 1]) + DigitValue(s[|s| - 1])
  }

  /** Reading a numeral back gives the number it was written from. */
  lemma {:induction false} ToNatFromNat(n: nat)
    ensures ToNat(FromNat(n)) == n
    decreases n
  {
    var s := FromNat(n);
    if n < 10 {
      assert s[..|s| - 1] == [];
      assert DigitValue(DigitChar(n)) == n;
    } else {
      ToNatFromNat(n / 10);
      assert s[..|s| - 1] == FromNat(n / 10);
      assert DigitValue(DigitChar(n % 10)) == n % 10;
    }
  }

  /** Different numbers have different numerals. */
  lemma FromNatInjective(m: nat, n: nat)
    ensures FromNat(m) == FromNat(n) <==> m == n
  {
    if FromNat(m) == FromNat(n) {
      ToNatFromNat(m);
      ToNatFromNat(n);
    }
  }
}
