/** The order in which `generate_num_constants` of Cython/Compiler/Code.py goes through integers of one type: by the
    lengths of their texts, and texts of one length alphabetically.  In this order every small integer finds the
    narrowest array that it fits, as `SortedNarrowest` says. */
module ConstantOrder {
  import opened Bits
  import opened Decimals
  import opened LargeNumbers
  import opened NumConstants

  function HexDigits(n: nat): (s: string)
    ensures s != ""
  {
    if n < 16 then [HexDigit(n)] else HexDigits(n / 16) + [HexDigit(n % 16)]
  }

  function HexDigit(d: nat): char
    requires d < 16
  {
    if d < 10 then '0' + d as char else 'a' + (d - 10) as char
  }

  /** The text of an integer without its sign; hexadecimal for large positive ones. */
  function TextOf(v: int): string {
    if v > 10_000_000_000_000 then "0x" + HexDigits(v) else Digits(Abs(v))
  }

  /** Alphabetically earlier, of two texts of one length. */
  ghost predicate Earlier(a: string, b: string)
    requires |a| == |b|
  {
    exists i :: 0 <= i < |a| && a[..i] == b[..i] && a[i] < b[i]
  }

  ghost predicate Before(a: string, b: string) {
    |a| < |b| || (|a| == |b| && Earlier(a, b))
  }

  ghost predicate Sorted(cs: seq<Const>) {
    && (forall i :: 0 <= i < |cs| ==> SectionOf(cs[i]) == SmallInts)
    && forall i, j :: 0 <= i < j < |cs| ==>
         TextOf(cs[i].value) == TextOf(cs[j].value) || Before(TextOf(cs[i].value), TextOf(cs[j].value))
  }

  // ----- Decimal texts come in the order of the numbers -----

  lemma {:induction false} DigitsGrow(m: nat, n: nat)
    requires m < n
    ensures Before(Digits(m), Digits(n))
    decreases n
  {
    hide Digits;
    DigitsSplit(m);
    DigitsSplit(n);
    if m >= 10 {
      if m / 10 < n / 10 {
        DigitsGrow(m / 10, n / 10);
        BeforeMore(Digits(m / 10), Digits(n / 10), Digit(m % 10), Digit(n % 10));
      } else {
        BeforeLast(Digits(m / 10), Digit(m % 10), Digit(n % 10));
      }
    } else if n < 10 {
      BeforeLast("", Digit(m), Digit(n));
    }
  }

  lemma DigitsSplit(n: nat)
    ensures if n < 10 then Digits(n) == [Digit(n)] == "" + [Digit(n)] else Digits(n) == Digits(n / 10) + [Digit(n % 10)]
    ensures n >= 10 ==> |Digits(n)| >= 2
  {
  }

  lemma BeforeMore(a: string, b: string, c: char, d: char)
    requires Before(a, b)
    ensures Before(a + [c], b + [d])
  {
    if |a| == |b| {
      var i :| 0 <= i < |a| && a[..i] == b[..i] && a[i] < b[i];
      assert (a + [c])[..i] == a[..i] && (b + [d])[..i] == b[..i];
      assert (a + [c])[i] < (b + [d])[i];
    }
  }

  lemma BeforeLast(a: string, c: char, d: char)
    requires c < d
    ensures Before(a + [c], a + [d])
  {
    var i := |a|;
    assert (a + [c])[..i] == a == (a + [d])[..i] && (a + [c])[i] < (a + [d])[i];
  }

  lemma BeforeIsStrict(a: string, b: string)
    requires Before(a, b)
    ensures a != b && !Before(b, a)
  {
    if |a| == |b| {
      var i :| 0 <= i < |a| && a[..i] == b[..i] && a[i] < b[i];
      forall j | 0 <= j < |a|
        ensures b[..j] == a[..j] ==> b[j] >= a[j]
      {
        if j < i {
          assert a[..i][j] == a[j] && b[..i][j] == b[j];
        } else if j > i {
          assert a[..j][i] == a[i] && b[..j][i] == b[i];
        }
      }
    }
  }

  lemma DigitsOrdered(m: nat, n: nat)
    requires Digits(m) == Digits(n) || Before(Digits(m), Digits(n))
    ensures m <= n
  {
    hide Digits, Before;
    if n < m {
      DigitsGrow(n, m);
      BeforeIsStrict(Digits(n), Digits(m));
    }
  }

  // ----- How long texts are -----

  function Power(base: nat, k: nat): nat {
    if k == 0 then 1 else base * Power(base, k - 1)
  }

  lemma {:induction false} DigitsAreShort(n: nat, k: nat)
    requires k > 0 && n < Power(10, k)
    ensures |Digits(n)| <= k
    decreases k
  {
    if n >= 10 {
      DigitsAreShort(n / 10, k - 1);
    }
  }

  lemma {:induction false} HexIsLong(n: nat, k: nat)
    requires n >= Power(16, k)
    ensures |HexDigits(n)| > k
    decreases k
  {
    if k > 0 {
      HexIsLong(n / 16, k - 1);
    }
  }

  lemma Magnitudes()
    ensures Power(10, 10) == 10_000_000_000 && Power(16, 10) == 0x100_0000_0000 && Pow2(31) == 0x8000_0000
  {
    assert Power(10, 4) == 10_000 && Power(16, 4) == 0x1_0000;
    assert Power(10, 8) == 100_000_000 && Power(16, 8) == 0x1_0000_0000;
    assert Pow2(8) == 0x100 && Pow2(16) == 0x1_0000 && Pow2(24) == 0x100_0000;
  }

  /** Only the decimal texts of integers are as short as those of 32-bit ones. */
  lemma ShortTexts(v: int)
    ensures Abs(v) < Pow2(31) ==> |TextOf(v)| <= 10
    ensures |TextOf(v)| <= 10 ==> TextOf(v) == Digits(Abs(v))
  {
    hide Power, Pow2;
    Magnitudes();
    if Abs(v) < Pow2(31) {
      DigitsAreShort(Abs(v), 10);
    }
    if v > 10_000_000_000_000 {
      HexIsLong(v, 10);
    }
  }

  // ----- Sorted integers ascend in width -----

  lemma SmallFits(c: Const, k: nat)
    requires SectionOf(c) == SmallInts && k >= 3
    ensures Fits(c, k)
  {
    SmallExactly(c);
    FitsWider(c, 3, k);
  }

  lemma OneAscends(a: Const, b: Const, k: nat)
    requires SectionOf(a) == SectionOf(b) == SmallInts && Fits(b, k)
    requires TextOf(a.value) == TextOf(b.value) || Before(TextOf(a.value), TextOf(b.value))
    ensures Fits(a, k)
  {
    hide TextOf, Pow2;
    if k >= 3 {
      SmallFits(a, k);
    } else {
      FitsNarrow(b, k);
      ShortTexts(b.value);
      ShortTexts(a.value);
      DigitsOrdered(Abs(a.value), Abs(b.value));
    }
  }

  lemma SortedAscends(cs: seq<Const>)
    requires Sorted(cs)
    ensures WidthsAscend(cs)
  {
    hide TextOf, Fits, Before;
    forall i, j, k: nat | 0 <= i < j < |cs| && Fits(cs[j], k)
      ensures Fits(cs[i], k)
    {
      OneAscends(cs[i], cs[j], k);
    }
  }

  /** So in this order every integer is in the narrowest array that it fits. */
  lemma SortedNarrowest(buckets: seq<seq<Const>>)
    requires BucketsValid(buckets) && AddedWhenNeeded(buckets) && Sorted(Flatten(buckets))
    ensures Narrowest(buckets)
  {
    hide Sorted, Flatten;
    SortedAscends(Flatten(buckets));
    NarrowestExactly(buckets);
  }

  /** Integers with a suffix are of another type, all of whose texts come last, however narrow they are. */
  lemma TypesDoNotAscend(wide: Const, narrow: Const)
    requires wide == Int("a", 0x80) && narrow == Int("b", 1)
    ensures Sorted([wide]) && Sorted([narrow]) && !WidthsAscend([wide, narrow])
  {
    Widths();
    assert Pow2(7) == 0x80;
    assert Fits([wide, narrow][1], 0) && !Fits([wide, narrow][0], 0);
    BitLengthBound(0x80, 63);
    BitLengthBound(1, 63);
    Doubling(8, 63);
  }
}
