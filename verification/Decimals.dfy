/** Decimal notation, as string formatting writes it. */
module Decimals {

  function Digits(n: nat): (s: string)
    ensures s != "" && forall c :: c in s ==> '0' <= c <= '9'
  {
    if n < 10 then [Digit(n)] else Digits(n / 10) + [Digit(n % 10)]
  }

  function Digit(d: nat): (c: char)
    requires d < 10
    ensures '0' <= c <= '9'
  {
    '0' + d as char
  }

  /** Decimal notation is injective. */
  lemma {:induction false} DigitsInjective(m: nat, n: nat)
    ensures Digits(m) == Digits(n) ==> m == n
    decreases m
  {
    if m >= 10 && n >= 10 {
      DigitsInjective(m / 10, n / 10);
      LastDigit(m);
      LastDigit(n);
    } else {
      DigitsLength(m);
      DigitsLength(n);
    }
  }

  lemma LastDigit(n: nat)
    requires n >= 10
    ensures var s := Digits(n); s[..|s| - 1] == Digits(n / 10) && s[|s| - 1] == Digit(n % 10)
  {
  }

  lemma DigitsLength(n: nat)
    ensures |Digits(n)| == 1 <==> n < 10
    ensures n < 10 ==> Digits(n)[0] == Digit(n)
  {
  }
}
