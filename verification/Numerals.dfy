/** Declared lengths and the numbers they spell, in both directions. */
module Numerals {
  import opened Admission
  import opened Archives

  lemma DecimalSnoc(s: string, c: char)
    ensures DecimalValue(s + [c]) == 10 * DecimalValue(s) + DigitValue(c)
  {
    assert (s + [c])[..|s|] == s;
  }

  lemma {:induction false} DigitsValue(prefix: string, n: nat)
    requires AllDecimal(prefix) && DecimalValue(prefix) == 0
    ensures AllDecimal(prefix + Digits(n, 10)) && DecimalValue(prefix + Digits(n, 10)) == n
    decreases n
  {
    if n < 10 {
      DecimalSnoc(prefix, DigitChar(n));
    } else {
      QuotientShrinks(n, 10);
      DigitsValue(prefix, n / 10);
      DecimalSnoc(prefix + Digits(n / 10, 10), DigitChar(n % 10));
      assert prefix + Digits(n, 10) == prefix + Digits(n / 10, 10) + [DigitChar(n % 10)];
    }
  }

  lemma {:induction false} ZerosValue(zeros: nat)
    ensures AllDecimal(seq(zeros, _ => '0')) && DecimalValue(seq(zeros, _ => '0')) == 0
  {
    var s := seq(zeros, _ => '0');
    if zeros > 0 {
      ZerosValue(zeros - 1);
      assert s == seq(zeros - 1, _ => '0') + ['0'];
      DecimalSnoc(seq(zeros - 1, _ => '0'), '0');
    }
  }

  /** Every number below 2^64 can be declared, with or without leading zeros, and is read as itself; from
      2^64 on a declaration is refused. */
  lemma LengthsSpelled(n: nat, zeros: nat)
    ensures var value := seq(zeros, _ => '0') + Digits(n, 10);
      DecimalValue(value) == n && (IsLength(value) <==> n < 18_446_744_073_709_551_616)
  {
    hide DecimalValue, AllDecimal;
    ZerosValue(zeros);
    DigitsValue(seq(zeros, _ => '0'), n);
  }
}
