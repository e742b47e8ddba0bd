/** Large integer constants in the C source: written in base 32 into one string, NUL between them, and read
    back one after the other (`to_base32` in Cython/Compiler/Code.py and the loop it generates). */
module LargeNumbers {
  import opened Bits

  datatype Option<+T> = None | Some(value: T)

  function Abs(v: int): nat {
    if v < 0 then -v else v
  }

  // ----- Large integers as text -----

  /** 0 to 9, then a to v. */
  function Digit32(d: nat): char
    requires d < 32
  {
    if d < 10 then '0' + d as char else 'a' + (d - 10) as char
  }

  function Digits32(n: nat): string {
    if n == 0 then "" else Digits32(n / 32) + [Digit32(n % 32)]
  }

  function Base32(n: int): string {
    if n == 0 then "0" else (if n < 0 then "-" else "") + Digits32(Abs(n))
  }

  function Reversed(s: string): (r: string)
    ensures |r| == |s|
  {
    if s == "" then "" else Reversed(s[1..]) + [s[0]]
  }

  lemma ReversedAppend(s: string, c: char)
    ensures Reversed(s + [c]) == [c] + Reversed(s)
  {
    if s != "" {
      assert (s + [c])[1..] == s[1..] + [c];
    }
  }

  lemma LowDigit(n: nat)
    ensures And(n, 31) == n % 32 && Shr(n, 5) == n / 32
  {
    AndLowMask(n, 5);
    ShrDivides(n, 5);
    Powers();
  }

  lemma Shift(a: string, b: string, c: string)
    ensures a + (b + c) == a + b + c
  {
  }

  /** Digits come out lowest first and are reversed at the end. */
  method ToBase32(n: int) returns (r: string)
    ensures r == Base32(n)
  {
    hide And, Shr, Digit32;
    var negative, number: nat := n < 0, Abs(n);
    var digits := "";
    while number > 0
      invariant Digits32(number) + Reversed(digits) == Digits32(Abs(n))
    {
      LowDigit(number);
      ghost var d := Digit32(number % 32);
      ReversedAppend(digits, d);
      Shift(Digits32(number / 32), [d], Reversed(digits));
      digits := digits + [Digit32(And(number, 31))];
      number := Shr(number, 5);
    }
    if digits == "" {
      assert Digits32(Abs(n)) == "";
      return "0";
    }
    if negative {
      ReversedAppend(digits, '-');
      digits := digits + "-";
    }
    return Reversed(digits);
  }

  // ----- Reading the text back -----

  function DigitValue(c: char): (v: int)
    ensures -1 <= v < 32
  {
    if '0' <= c <= '9' then (c - '0') as int
    else if 'a' <= c <= 'v' then (c - 'a') as int + 10
    else if 'A' <= c <= 'V' then (c - 'A') as int + 10
    else -1
  }

  function ParseDigits(s: string, value: nat): (nat, string) {
    if s == "" || DigitValue(s[0]) < 0 then (value, s) else ParseDigits(s[1..], value * 32 + DigitValue(s[0]))
  }

  /** An optional sign and at least one digit; what follows the last digit is left. */
  function ParseInt(s: string): Option<(int, string)> {
    var negative := s != "" && s[0] == '-';
    var t := if negative then s[1..] else s;
    if t == "" || DigitValue(t[0]) < 0 then None
    else
      var (v, rest) := ParseDigits(t, 0);
      Some((if negative then -(v as int) else v as int, rest))
  }

  /** One number after the other, each read from just behind the character that ended the one before. */
  function ReadAll(memory: string, count: nat): (r: seq<Option<int>>)
    ensures |r| == count
    decreases count
  {
    if count == 0 then []
    else
      match ParseInt(memory)
      case None => [None] + ReadAll("", count - 1)
      case Some(p) => [Some(p.0)] + ReadAll(if p.1 == "" then "" else p.1[1..], count - 1)
  }

  const NUL_ESCAPE := "\\000"

  /** The characters of a C string literal that has no escapes but that one. */
  function Unescape(s: string): string {
    if s == "" then ""
    else if |s| >= 4 && s[..4] == NUL_ESCAPE then "\0" + Unescape(s[4..])
    else [s[0]] + Unescape(s[1..])
  }

  function Join(parts: seq<string>): string {
    if parts == [] then "" else if |parts| == 1 then parts[0] else parts[0] + NUL_ESCAPE + Join(parts[1..])
  }

  function Texts(large: seq<int>): (r: seq<string>)
    ensures |r| == |large|
  {
    if large == [] then [] else [Base32(large[0])] + Texts(large[1..])
  }

  predicate AllDigits(s: string) {
    forall i :: 0 <= i < |s| ==> DigitValue(s[i]) >= 0
  }

  function Value32(s: string): nat
    requires AllDigits(s)
  {
    if s == "" then 0 else 32 * Value32(s[..|s| - 1]) + DigitValue(s[|s| - 1])
  }

  lemma {:induction false} DigitsHaveValue(n: nat)
    ensures AllDigits(Digits32(n))
    ensures Value32(Digits32(n)) == n && (n > 0 ==> Digits32(n) != "")
  {
    if n > 0 {
      DigitsHaveValue(n / 32);
      var s := Digits32(n);
      assert s[..|s| - 1] == Digits32(n / 32);
      assert DigitValue(Digit32(n % 32)) == n % 32;
    }
  }

  lemma {:induction false} ParseDigitsValue(s: string, rest: string, value: nat)
    requires AllDigits(s) && rest != "" && DigitValue(rest[0]) < 0
    ensures ParseDigits(s + rest, value) == (Scale(value, |s|) + Value32(s), rest)
    decreases |s|
  {
    if s == "" {
      assert s + rest == rest;
    } else {
      assert (s + rest)[1..] == s[1..] + rest;
      ParseDigitsValue(s[1..], rest, value * 32 + DigitValue(s[0]));
      FirstDigit(s);
      ScaleAdd(value * 32, DigitValue(s[0]), |s| - 1);
    }
  }

  /** `value` followed by k zeros. */
  function Scale(value: nat, k: nat): nat
    decreases k
  {
    if k == 0 then value else Scale(value * 32, k - 1)
  }

  lemma {:induction false} ScaleAdd(a: nat, b: nat, k: nat)
    ensures Scale(a + b, k) == Scale(a, k) + Scale(b, k)
    decreases k
  {
    if k > 0 {
      assert (a + b) * 32 == a * 32 + b * 32;
      ScaleAdd(a * 32, b * 32, k - 1);
    }
  }

  lemma {:induction false} ScaleOut(a: nat, k: nat)
    ensures 32 * Scale(a, k) == Scale(a, k + 1)
    decreases k
  {
    if k > 0 {
      ScaleOut(a * 32, k - 1);
    }
  }

  lemma {:induction false} FirstDigit(s: string)
    requires s != "" && AllDigits(s)
    ensures Value32(s) == Scale(DigitValue(s[0]), |s| - 1) + Value32(s[1..])
  {
    if |s| > 1 {
      var t := s[..|s| - 1];
      FirstDigit(t);
      ScaleOut(DigitValue(s[0]), |s| - 2);
      assert s[1..][..|s| - 2] == t[1..];
    }
  }

  /** A number in base 32 is read back, sign and all, up to the character that ends it. */
  lemma ParseBase32(n: int, rest: string)
    requires rest != "" && DigitValue(rest[0]) < 0
    ensures ParseInt(Base32(n) + rest) == Some((n, rest))
  {
    hide ParseInt, ParseDigits, Digits32, AllDigits;
    if n == 0 {
      ZeroParsed(rest);
    } else {
      DigitsParsed(Abs(n), rest);
      SignParsed(Digits32(Abs(n)), rest);
      assert "" + Digits32(Abs(n)) == Digits32(Abs(n));
    }
  }

  lemma ZeroParsed(rest: string)
    requires rest != "" && DigitValue(rest[0]) < 0
    ensures ParseInt("0" + rest) == Some((0, rest))
  {
    assert ("0" + rest)[1..] == rest && DigitValue('0') == 0;
    assert ParseDigits(rest, 0) == (0, rest);
  }

  lemma DigitsParsed(n: nat, rest: string)
    requires n > 0 && rest != "" && DigitValue(rest[0]) < 0
    ensures Digits32(n) != "" && AllDigits(Digits32(n)) && ParseDigits(Digits32(n) + rest, 0) == (n, rest)
  {
    DigitsHaveValue(n);
    ParseDigitsValue(Digits32(n), rest, 0);
    ScaleZero(|Digits32(n)|);
  }

  lemma SignParsed(d: string, rest: string)
    requires d != "" && AllDigits(d)
    ensures ParseInt(d + rest) == Some((ParseDigits(d + rest, 0).0 as int, ParseDigits(d + rest, 0).1))
    ensures ParseInt("-" + d + rest) == Some((-(ParseDigits(d + rest, 0).0 as int), ParseDigits(d + rest, 0).1))
  {
    hide ParseDigits;
    assert ("-" + d + rest)[1..] == d + rest;
    assert DigitValue(d[0]) >= 0 && (d + rest)[0] == d[0];
  }

  lemma {:induction false} ScaleZero(k: nat)
    ensures Scale(0, k) == 0
  {
    if k > 0 {
      ScaleZero(k - 1);
    }
  }

  predicate Plain(s: string) {
    forall i :: 0 <= i < |s| ==> s[i] != '\\'
  }

  lemma {:induction false} UnescapePlain(s: string, rest: string)
    requires Plain(s)
    ensures Unescape(s + rest) == s + Unescape(rest)
    decreases |s|
  {
    if s == "" {
      assert s + rest == rest;
    } else {
      var t := s + rest;
      assert t[0] == s[0] && NUL_ESCAPE[0] == '\\';
      assert t[..|t|] == t && (|t| >= 4 ==> t[..4][0] == t[0]);
      assert t[1..] == s[1..] + rest;
      UnescapePlain(s[1..], rest);
      assert [s[0]] + (s[1..] + Unescape(rest)) == s + Unescape(rest);
    }
  }

  lemma Base32Plain(n: int)
    ensures Plain(Base32(n))
  {
    DigitsHaveValue(Abs(n));
    assert DigitValue('\\') == -1;
  }

  /** Reading the string of all large integers gives them back, one by one. */
  lemma {:induction false} TextRead(large: seq<int>)
    ensures ReadAll(Unescape(Join(Texts(large))) + "\0", |large|) == Values(large)
  {
    hide Base32, ParseInt, Unescape;
    if large != [] {
      var n, more := large[0], large[1..];
      TextRead(more);
      if |large| == 1 {
        LastText(n);
        NextRead(n, "\0", 0);
      } else {
        var tail := Join(Texts(more));
        assert Texts(large)[1..] == Texts(more);
        FirstText(n, tail);
        NextRead(n, "\0" + (Unescape(tail) + "\0"), |more|);
      }
    }
  }

  function Values(large: seq<int>): seq<Option<int>> {
    if large == [] then [] else [Some(large[0])] + Values(large[1..])
  }

  lemma LastText(n: int)
    ensures Unescape(Base32(n)) + "\0" == Base32(n) + "\0"
  {
    hide Base32;
    Base32Plain(n);
    UnescapePlain(Base32(n), "");
    assert Base32(n) + "" == Base32(n);
  }

  lemma FirstText(n: int, tail: string)
    ensures Unescape(Base32(n) + NUL_ESCAPE + tail) + "\0" == Base32(n) + ("\0" + (Unescape(tail) + "\0"))
  {
    hide Base32;
    Base32Plain(n);
    UnescapePlain(Base32(n), NUL_ESCAPE + tail);
    assert (NUL_ESCAPE + tail)[..4] == NUL_ESCAPE && (NUL_ESCAPE + tail)[4..] == tail;
    assert Base32(n) + NUL_ESCAPE + tail == Base32(n) + (NUL_ESCAPE + tail);
  }

  lemma NextRead(n: int, rest: string, count: nat)
    requires rest != "" && rest[0] == '\0'
    ensures ReadAll(Base32(n) + rest, count + 1) == [Some(n)] + ReadAll(rest[1..], count)
  {
    hide Base32, ParseInt;
    ParseBase32(n, rest);
  }
}
