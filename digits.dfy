/** `count_digits` (codespan-reporting/src/term/views.rs). */
module Decimal {

  function Pow10(k: nat): (p: nat)
    ensures p >= 1
  {
    if k == 0 then 1 else 10 * Pow10(k - 1)
  }

  /** The number of decimal digits of `n`; 0 has none. */
  function Digits(n: nat): nat {
    if n == 0 then 0 else 1 + Digits(n / 10)
  }

  /** `n` has `c` digits exactly when it lies in `10^(c-1) .. 10^c`. */
  lemma {:induction false} DigitsBounds(n: nat)
    ensures n == 0 <==> Digits(n) == 0
    ensures n > 0 ==> Pow10(Digits(n) - 1) <= n < Pow10(Digits(n))
  {
    if n >= 10 {
      DigitsBounds(n / 10);
    }
  }

  /** More digits are never needed for a smaller number. */
  lemma {:induction false} DigitsMonotone(m: nat, n: nat)
    requires m <= n
    ensures Digits(m) <= Digits(n)
  {
    if m > 0 {
      DigitsMonotone(m / 10, n / 10);
    }
  }

  /** `count_digits`: strips the last digit until nothing is left. */
  method CountDigits(n: nat) returns (count: nat)
    ensures count == Digits(n)
    ensures n == 0 ==> count == 0
    ensures n > 0 ==> Pow10(count - 1) <= n < Pow10(count)
  {
    DigitsBounds(n);
    count := 0;
    var rest := n;
    while rest != 0
      invariant count + Digits(rest) == Digits(n)
    {
      count := count + 1;
      rest := rest / 10;
    }
  }
}
