/** Zero-padded decimal numerals. */
module Decimal {

  const DIGITS := "0123456789"

  function Numeral(n: nat): (s: string)
    ensures s != ""
  {
    if n < 10 then [DIGITS[n]] else Numeral(n / 10) + [DIGITS[n % 10]]
  }

  function Zeros(count: int): (s: string)
    ensures |s| == if count <= 0 then 0 else count
    ensures forall i | 0 <= i < |s| :: s[i] == '0'
  {
    seq(if count <= 0 then 0 else count, _ => '0')
  }

  /** `f"{n:04d}"` */
  function FourDigits(n: nat): string {
    Zeros(4 - |Numeral(n)|) + Numeral(n)
  }

  function DigitValue(c: char): nat {
    if '0' <= c <= '9' then (c - '0') as nat else 0
  }

  function Value(s: string): nat {
    if s == "" then 0 else 10 * Value(s[..|s| - 1]) + DigitValue(s[|s| - 1])
  }

  lemma {:induction false} NumeralValue(n: nat)
    ensures Value(Numeral(n)) == n
  {
    assert forall d: nat | d < 10 :: DigitValue(DIGITS[d]) == d;
    if n < 10 {
      assert Numeral(n)[..0] == "";
    } else {
      NumeralValue(n / 10);
      assert Numeral(n)[..|Numeral(n)| - 1] == Numeral(n / 10);
    }
  }

  lemma {:induction false} ZerosInFront(zeros: string, s: string)
    requires forall i | 0 <= i < |zeros| :: zeros[i] == '0'
    ensures Value(zeros + s) == Value(s)
  {
    if s != "" {
      var n := |s| - 1;
      ZerosInFront(zeros, s[..n]);
      assert (zeros + s)[..|zeros + s| - 1] == zeros + s[..n];
    } else if zeros != "" {
      var n := |zeros| - 1;
      ZerosInFront(zeros[..n], "");
      assert zeros + s == zeros && zeros[..n] + "" == zeros[..n];
    }
  }

  lemma {:induction false} NumeralIsPlain(n: nat)
    ensures forall i | 0 <= i < |Numeral(n)| :: '0' <= Numeral(n)[i] <= '9'
    ensures Numeral(n)[0] == '0' ==> n == 0 && |Numeral(n)| == 1
  {
    assert forall d | 0 <= d < 10 :: '0' <= DIGITS[d] <= '9' && (DIGITS[d] == '0' ==> d == 0);
    if n >= 10 {
      NumeralIsPlain(n / 10);
    }
  }

  /** The decimal digits of the number, at least four of them, and no leading zero when there are more. */
  lemma FourDigitsIsTheNumeral(n: nat)
    ensures Value(FourDigits(n)) == n && |FourDigits(n)| >= 4
    ensures forall i | 0 <= i < |FourDigits(n)| :: '0' <= FourDigits(n)[i] <= '9'
    ensures |FourDigits(n)| > 4 ==> FourDigits(n)[0] != '0'
  {
    NumeralIsPlain(n);
    NumeralValue(n);
    ZerosInFront(Zeros(4 - |Numeral(n)|), Numeral(n));
  }

  /** Two numbers never share a numeral, padded or longer than four digits. */
  lemma FourDigitsIsInjective(a: nat, b: nat)
    requires FourDigits(a) == FourDigits(b)
    ensures a == b
  {
    ZerosInFront(Zeros(4 - |Numeral(a)|), Numeral(a));
    ZerosInFront(Zeros(4 - |Numeral(b)|), Numeral(b));
    NumeralValue(a);
    NumeralValue(b);
  }
}
