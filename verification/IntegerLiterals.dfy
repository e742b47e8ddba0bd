/** The text of integer literals, the numbers they stand for as `str_to_number` of Cython/Utils.py reads them, and
    the decimal text that Python's `str` gives a number back. */
module IntegerLiterals {
  import opened Decimals

  function DigitValue(c: char): nat {
    if '0' <= c <= '9' then (c - '0') as nat
    else if 'a' <= c <= 'f' then (c - 'a') as nat + 10
    else if 'A' <= c <= 'F' then (c - 'A') as nat + 10
    else 16
  }

  predicate AllDigits(s: string, base: nat) {
    forall i :: 0 <= i < |s| ==> DigitValue(s[i]) < base
  }

  /** What `int` makes of digits in a base. */
  function ValueIn(s: string, base: nat): nat {
    if s == "" then 0 else base * ValueIn(s[..|s| - 1], base) + DigitValue(s[|s| - 1])
  }

  /** Hexadecimal, octal and binary by prefix; octal also by a leading zero. */
  function Base(s: string): nat {
    if |s| < 2 || s[0] != '0' then 10
    else if s[1] == 'x' || s[1] == 'X' then 16
    else if s[1] == 'b' || s[1] == 'B' then 2
    else 8
  }

  predicate HasPrefix(s: string) {
    |s| >= 2 && s[0] == '0' && s[1] in "xXoObB"
  }

  predicate IsLiteral(s: string) {
    if HasPrefix(s) then |s| > 2 && AllDigits(s[2..], Base(s)) else s != "" && AllDigits(s, Base(s))
  }

  /** Without sign, suffix or underscores, as the scanner hands them on. */
  type Literal = s: string | IsLiteral(s) witness "0"

  function NumberOf(s: Literal): nat {
    ValueIn(if HasPrefix(s) then s[2..] else s, Base(s))
  }

  /** Decimal, and neither zero nor with leading zeros. */
  predicate Plain(s: string) {
    s != "" && AllDigits(s, 10) && s[0] != '0'
  }

  lemma DigitHasValue(d: nat)
    requires d < 10
    ensures DigitValue(Digit(d)) == d && (Digit(d) == '0' <==> d == 0)
  {
  }

  lemma {:induction false} DigitsRead(n: nat)
    ensures AllDigits(Digits(n), 10) && ValueIn(Digits(n), 10) == n && (n > 0 ==> Digits(n)[0] != '0')
  {
    if n < 10 {
      DigitHasValue(n);
      assert Digits(n)[..0] == "" && ValueIn("", 10) == 0;
    } else {
      DigitsRead(n / 10);
      LastDigit(n);
      DigitHasValue(n % 10);
    }
  }

  /** The text of a number is a literal of that number, in plain form unless it is zero. */
  lemma DigitsAreLiteral(n: nat)
    ensures IsLiteral(Digits(n)) && NumberOf(Digits(n)) == n && (n > 0 ==> Plain(Digits(n)))
  {
    DigitsRead(n);
    if n == 0 {
      assert Digits(0) == ['0'];
    }
  }

  lemma {:induction false} ValueOfPlain(s: string)
    requires Plain(s)
    ensures ValueIn(s, 10) > 0 && Digits(ValueIn(s, 10)) == s
  {
    var most, c := s[..|s| - 1], s[|s| - 1];
    var d := DigitValue(c);
    DigitHasValue(d);
    assert c == Digit(d);
    if most == "" {
      assert ValueIn(most, 10) == 0;
    } else {
      ValueOfPlain(most);
      assert ValueIn(s, 10) / 10 == ValueIn(most, 10) && ValueIn(s, 10) % 10 == d;
    }
    assert s == most + [c];
  }

  /** Writing the number of a literal gives the literal back if and only if it has plain form or is a single zero. */
  lemma PlainExactly(s: Literal)
    ensures Plain(s) ==> NumberOf(s) > 0
    ensures NumberOf(s) > 0 ==> (Digits(NumberOf(s)) == s <==> Plain(s))
  {
    if Plain(s) {
      ValueOfPlain(s);
      assert !HasPrefix(s) && Base(s) == 10;
    }
    DigitsAreLiteral(NumberOf(s));
  }
}
