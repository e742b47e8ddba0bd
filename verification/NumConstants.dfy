/** The table of Python number constants that `generate_num_constants` of Cython/Compiler/Code.py writes: small
    integers packed into C arrays of growing width, large ones in one string of base-32 digits, and a name for
    every place in the table. */
module NumConstants {
  import opened Bits
  import opened LargeNumbers

  datatype Const = Float(cname: string, code: string) | Int(cname: string, value: int)

  datatype Object = PyFloat(code: string) | PyInt(value: int)

  function ObjectOf(c: Const): Object {
    match c
    case Float(_, code) => PyFloat(code)
    case Int(_, value) => PyInt(value)
  }

  // ----- Integers and their widths -----

  function BitLength(n: nat): nat {
    if n == 0 then 0 else 1 + BitLength(n / 2)
  }

  lemma {:induction false} BitLengthBound(n: nat, k: nat)
    ensures BitLength(n) <= k <==> n < Pow2(k)
    decreases k
  {
    if k > 0 && n > 0 {
      BitLengthBound(n / 2, k - 1);
    }
  }

  datatype Section = Floats | SmallInts | LargeInts

  function SectionOf(c: Const): Section {
    match c
    case Float(_, _) => Floats
    case Int(_, value) => if BitLength(Abs(value)) <= 63 then SmallInts else LargeInts
  }

  function Only(section: Section, cs: seq<Const>): (r: seq<Const>)
    ensures forall c <- r :: SectionOf(c) == section
  {
    if cs == [] then []
    else
      var c := cs[|cs| - 1];
      Only(section, cs[..|cs| - 1]) + (if SectionOf(c) == section then [c] else [])
  }

  /** The order of the table: floats, small integers, large integers. */
  function Arranged(cs: seq<Const>): seq<Const> {
    Only(Floats, cs) + Only(SmallInts, cs) + Only(LargeInts, cs)
  }

  lemma {:induction false} ArrangedPermutes(cs: seq<Const>)
    ensures multiset(Arranged(cs)) == multiset(cs)
  {
    if cs != [] {
      var front, c := cs[..|cs| - 1], cs[|cs| - 1];
      ArrangedPermutes(front);
      assert cs == front + [c];
      OneArranged(front, c);
    }
  }

  lemma OnlyMore(section: Section, front: seq<Const>, c: Const)
    ensures Only(section, front + [c]) == Only(section, front) + (if SectionOf(c) == section then [c] else [])
  {
    assert (front + [c])[..|front|] == front;
  }

  lemma OneArranged(front: seq<Const>, c: Const)
    ensures multiset(Arranged(front + [c])) == multiset(Arranged(front)) + multiset{c}
  {
    hide Only;
    OnlyMore(Floats, front, c);
    OnlyMore(SmallInts, front, c);
    OnlyMore(LargeInts, front, c);
  }

  // ----- Buckets -----

  function Flatten(buckets: seq<seq<Const>>): seq<Const> {
    if buckets == [] then [] else Flatten(buckets[..|buckets| - 1]) + buckets[|buckets| - 1]
  }

  /** Bucket k is for integers of 2^k bytes; every value in it fits a signed integer of that width. */
  predicate Fits(c: Const, k: nat) {
    c.Int? && Abs(c.value) < Pow2(8 * Pow2(k) - 1)
  }

  predicate BucketsValid(buckets: seq<seq<Const>>) {
    && 1 <= |buckets| <= 4
    && (forall k, j :: 0 <= k < |buckets| && 0 <= j < |buckets[k]| ==> Fits(buckets[k][j], k))
    && (|buckets| > 1 ==> buckets[|buckets| - 1] != [])
  }

  /** The test for a wider array: bits and a sign, in bytes, against the width. */
  lemma FitsExactly(c: Const, k: nat)
    requires c.Int?
    ensures Fits(c, k) <==> (BitLength(Abs(c.value)) + 8) / 8 <= Pow2(k)
  {
    BitLengthBound(Abs(c.value), 8 * Pow2(k) - 1);
  }

  /** The small integers are those that fit the widest array. */
  lemma SmallExactly(c: Const)
    ensures SectionOf(c) == SmallInts <==> Fits(c, 3)
  {
    Widths();
    if c.Int? {
      BitLengthBound(Abs(c.value), 63);
    }
  }

  lemma FitsWider(c: Const, k: nat, m: nat)
    ensures k <= m && Fits(c, k) ==> Fits(c, m)
  {
    hide Pow2;
    if k <= m {
      Doubling(k, m);
      Doubling(8 * Pow2(k) - 1, 8 * Pow2(m) - 1);
    }
  }

  /** A bucket behind the first one starts with a constant that is too wide for the one before. */
  ghost predicate AddedWhenNeeded(buckets: seq<seq<Const>>) {
    forall k :: 0 < k < |buckets| && buckets[k] != [] ==> !Fits(buckets[k][0], k - 1)
  }

  /** No constant has a wider place than it needs. */
  ghost predicate Narrowest(buckets: seq<seq<Const>>) {
    forall k, j :: 0 < k < |buckets| && 0 <= j < |buckets[k]| ==> !Fits(buckets[k][j], k - 1)
  }

  /** No constant is wider than a later one. */
  ghost predicate WidthsAscend(cs: seq<Const>) {
    forall i, j, k: nat :: 0 <= i < j < |cs| && Fits(cs[j], k) ==> Fits(cs[i], k)
  }

  /** Every constant is in the narrowest array that it fits exactly when the constants come in the order of their
      widths: an array that was left is never used again. */
  lemma {:induction false} NarrowestExactly(buckets: seq<seq<Const>>)
    requires forall k, j :: 0 <= k < |buckets| && 0 <= j < |buckets[k]| ==> Fits(buckets[k][j], k)
    requires AddedWhenNeeded(buckets)
    ensures Narrowest(buckets) <==> WidthsAscend(Flatten(buckets))
  {
    hide Fits;
    if buckets != [] {
      var front, last := buckets[..|buckets| - 1], buckets[|buckets| - 1];
      NarrowestExactly(front);
      assert buckets == front + [last];
      LastBucket(front, last);
    }
  }

  lemma LastBucket(front: seq<seq<Const>>, last: seq<Const>)
    requires forall k, j :: 0 <= k < |front| && 0 <= j < |front[k]| ==> Fits(front[k][j], k)
    requires forall j :: 0 <= j < |last| ==> Fits(last[j], |front|)
    requires last != [] && front != [] ==> !Fits(last[0], |front| - 1)
    requires Narrowest(front) <==> WidthsAscend(Flatten(front))
    ensures Narrowest(front + [last]) <==> WidthsAscend(Flatten(front + [last]))
  {
    hide Fits, Flatten;
    var n, flat, buckets := |front|, Flatten(front), front + [last];
    FlattenMore(front, last);
    if Narrowest(buckets) {
      assert forall k :: 0 <= k < n ==> buckets[k] == front[k];
      assert buckets[n] == last;
      AllFit(front);
      AscendsOn(flat, last, n);
    }
    if WidthsAscend(flat + last) {
      AscendsBefore(flat, last);
      if n > 0 {
        forall j | 0 <= j < |last|
          ensures !Fits(last[j], n - 1)
        {
          assert (flat + last)[|flat|] == last[0] && (flat + last)[|flat| + j] == last[j];
        }
      }
    }
  }

  lemma AscendsOn(flat: seq<Const>, last: seq<Const>, n: nat)
    requires WidthsAscend(flat)
    requires forall c <- flat :: Fits(c, n)
    requires forall j :: 0 <= j < |last| ==> Fits(last[j], n) && (n > 0 ==> !Fits(last[j], n - 1))
    ensures WidthsAscend(flat + last)
  {
    hide Fits;
    var cs := flat + last;
    forall i, j, k: nat | 0 <= i < j < |cs| && Fits(cs[j], k)
      ensures Fits(cs[i], k)
    {
      if j >= |flat| {
        if n > 0 {
          FitsWider(cs[j], k, n - 1);
        }
        FitsWider(cs[i], n, k);
      }
    }
  }

  lemma AscendsBefore(flat: seq<Const>, last: seq<Const>)
    requires WidthsAscend(flat + last)
    ensures WidthsAscend(flat)
  {
    hide Fits;
    assert forall i :: 0 <= i < |flat| ==> (flat + last)[i] == flat[i];
  }

  lemma {:induction false} AllFit(buckets: seq<seq<Const>>)
    requires forall k, j :: 0 <= k < |buckets| && 0 <= j < |buckets[k]| ==> Fits(buckets[k][j], k)
    ensures forall c <- Flatten(buckets) :: Fits(c, |buckets|)
  {
    hide Fits;
    if buckets != [] {
      var n := |buckets| - 1;
      AllFit(buckets[..n]);
      forall c <- Flatten(buckets)
        ensures Fits(c, |buckets|)
      {
        assert c in Flatten(buckets[..n]) || c in buckets[n];
        assert c in buckets[n] ==> exists j :: 0 <= j < |buckets[n]| && buckets[n][j] == c;
        FitsWider(c, n, n + 1);
      }
    }
  }

  lemma FlattenMore(front: seq<seq<Const>>, last: seq<Const>)
    ensures Flatten(front + [last]) == Flatten(front) + last
  {
    assert (front + [last])[..|front|] == front;
  }

  lemma Widths()
    ensures Pow2(0) == 1 && Pow2(1) == 2 && Pow2(2) == 4 && Pow2(3) == 8
  {
    Powers();
  }

  lemma FlattenAppend(buckets: seq<seq<Const>>, c: Const)
    requires buckets != []
    ensures var n := |buckets| - 1; Flatten(buckets[n := buckets[n] + [c]]) == Flatten(buckets) + [c]
  {
    var n := |buckets| - 1;
    var more := buckets[n := buckets[n] + [c]];
    assert more[..n] == buckets[..n];
    assert Flatten(buckets[..n]) + (buckets[n] + [c]) == Flatten(buckets[..n]) + buckets[n] + [c];
  }

  lemma FlattenEmpty(buckets: seq<seq<Const>>)
    ensures Flatten(buckets + [[]]) == Flatten(buckets)
  {
    assert (buckets + [[]])[..|buckets|] == buckets;
  }

  lemma NoConstants()
    ensures BucketsValid([[]]) && AddedWhenNeeded([[]]) && Flatten([[]]) == []
    ensures forall section :: Only(section, []) == []
  {
  }

  lemma OnlyStep(cs: seq<Const>, i: nat)
    requires i < |cs|
    ensures forall section :: Only(section, cs[..i + 1]) ==
              if SectionOf(cs[i]) == section then Only(section, cs[..i]) + [cs[i]] else Only(section, cs[..i])
  {
    assert cs[..i + 1][..i] == cs[..i];
  }

  /** The constants of each section, in their order; no small integer is lost or moved by the widening. */
  method SplitConstants(consts: seq<Const>)
    returns (floats: seq<Const>, buckets: seq<seq<Const>>, large: seq<Const>, intCount: nat)
    ensures floats == Only(Floats, consts)
    ensures Flatten(buckets) == Only(SmallInts, consts) && intCount == |Flatten(buckets)|
    ensures large == Only(LargeInts, consts)
    ensures buckets != [] && BucketsValid(buckets) && (intCount > 0 ==> buckets[|buckets| - 1] != [])
    ensures AddedWhenNeeded(buckets)
  {
    hide BucketsValid, AddedWhenNeeded, Flatten, BitLength, Only;
    NoConstants();
    floats, buckets, large, intCount := [], [[]], [], 0;
    for i := 0 to |consts|
      invariant floats == Only(Floats, consts[..i])
      invariant Flatten(buckets) == Only(SmallInts, consts[..i]) && intCount == |Flatten(buckets)|
      invariant large == Only(LargeInts, consts[..i])
      invariant buckets != [] && BucketsValid(buckets) && (intCount > 0 ==> buckets[|buckets| - 1] != [])
      invariant AddedWhenNeeded(buckets)
    {
      var c := consts[i];
      OnlyStep(consts, i);
      if c.Float? {
        floats := floats + [c];
      } else {
        var bitLength := BitLength(Abs(c.value));
        if bitLength <= 63 {
          buckets := PlaceConstant(buckets, c, bitLength);
          intCount := intCount + 1;
        } else {
          large := large + [c];
        }
      }
    }
    assert consts[..|consts|] == consts;
  }

  /** Wider buckets behind those there are, `n` in all. */
  function Widened(buckets: seq<seq<Const>>, n: nat): seq<seq<Const>>
    requires n >= |buckets|
  {
    buckets + seq(n - |buckets|, _ => [])
  }

  function WithConstant(buckets: seq<seq<Const>>, c: Const): seq<seq<Const>>
    requires buckets != []
  {
    var n := |buckets| - 1;
    buckets[n := buckets[n] + [c]]
  }

  lemma WidenOnce(buckets: seq<seq<Const>>, n: nat)
    requires n >= |buckets|
    ensures Widened(buckets, n) + [[]] == Widened(buckets, n + 1)
  {
  }

  /** What is known of the buckets holds again with the constant in the last one of as many as it needs. */
  lemma Placed(buckets: seq<seq<Const>>, n: nat, c: Const)
    requires BucketsValid(buckets) && |buckets| <= n <= 4 && Fits(c, n - 1) && (n > |buckets| ==> !Fits(c, n - 2))
    ensures BucketsValid(WithConstant(Widened(buckets, n), c))
    ensures AddedWhenNeeded(buckets) ==> AddedWhenNeeded(WithConstant(Widened(buckets, n), c))
  {
    hide Fits;
  }

  /** The constant goes to the last bucket, behind which wider ones are added only while it does not fit. */
  method PlaceConstant(buckets: seq<seq<Const>>, c: Const, bitLength: nat) returns (r: seq<seq<Const>>)
    requires BucketsValid(buckets) && SectionOf(c) == SmallInts && bitLength == BitLength(Abs(c.value))
    ensures BucketsValid(r) && Flatten(r) == Flatten(buckets) + [c] && r[|r| - 1] != []
    ensures AddedWhenNeeded(buckets) ==> AddedWhenNeeded(r)
    ensures |r| >= |buckets| && r == WithConstant(Widened(buckets, |r|), c)
    ensures Fits(c, |r| - 1) && forall k :: |buckets| - 1 <= k < |r| - 1 ==> !Fits(c, k)
  {
    hide BitLength, Flatten, BucketsValid, Fits, AddedWhenNeeded;
    SomeBuckets(buckets);
    r := buckets;
    Widths();
    while (bitLength + 8) / 8 > Pow2(|r| - 1)
      invariant |buckets| <= |r| <= 4 && r == Widened(buckets, |r|) && Flatten(r) == Flatten(buckets)
      invariant forall k :: |buckets| - 1 <= k < |r| - 1 ==> !Fits(c, k)
      decreases 4 - |r|
    {
      FlattenEmpty(r);
      FitsExactly(c, |r| - 1);
      WidenOnce(buckets, |r|);
      r := r + [[]];
    }
    FitsExactly(c, |r| - 1);
    FlattenAppend(r, c);
    Placed(buckets, |r|, c);
    r := r[|r| - 1 := r[|r| - 1] + [c]];
  }

  lemma SomeBuckets(buckets: seq<seq<Const>>)
    requires BucketsValid(buckets)
    ensures 1 <= |buckets| <= 4
  {
  }

  // ----- Reading the arrays -----

  /** The C expression that reads the constant for loop index i; Hole is the place still to be filled. */
  datatype Access = Hole | Item(bucket: nat, seen: nat) | Choose(limit: nat, bucket: nat, seen: nat, otherwise: Access)

  function Fill(a: Access, b: Access): Access {
    match a
    case Hole => b
    case Item(_, _) => a
    case Choose(limit, bucket, seen, otherwise) => Choose(limit, bucket, seen, Fill(otherwise, b))
  }

  /** Reading outside an array, or through a hole, has no value. */
  function Read(a: Access, arrays: seq<seq<Const>>, i: int): Option<Const> {
    match a
    case Hole => None
    case Item(bucket, seen) =>
      if bucket < |arrays| && 0 <= i - seen < |arrays[bucket]| then Some(arrays[bucket][i - seen]) else None
    case Choose(limit, bucket, seen, otherwise) =>
      if i < limit then
        if bucket < |arrays| && 0 <= i - seen < |arrays[bucket]| then Some(arrays[bucket][i - seen]) else None
      else Read(otherwise, arrays, i)
  }

  /** A partial expression serves the first `count` indices and leaves the others to what fills the hole. */
  ghost predicate Serves(a: Access, arrays: seq<seq<Const>>, flat: seq<Const>) {
    && (forall i, b :: 0 <= i < |flat| ==> Read(Fill(a, b), arrays, i) == Some(flat[i]))
    && (forall i, b :: i >= |flat| ==> Read(Fill(a, b), arrays, i) == Read(b, arrays, i))
  }

  datatype Define = Define(cname: string, index: nat)

  /** `#define` lines for a run of constants. */
  function Defines(cs: seq<Const>, start: nat): seq<Define> {
    seq(|cs|, k requires 0 <= k < |cs| => Define(cs[k].cname, start + k))
  }

  lemma DefinesAdd(a: seq<Const>, b: seq<Const>, start: nat)
    ensures Defines(a + b, start) == Defines(a, start) + Defines(b, start + |a|)
  {
  }

  lemma {:induction false} FillTwice(a: Access, b: Access, c: Access)
    ensures Fill(Fill(a, b), c) == Fill(a, Fill(b, c))
  {
    match a
    case Hole =>
    case Item(_, _) =>
    case Choose(_, _, _, otherwise) => FillTwice(otherwise, b, c);
  }

  lemma ServesMore(a: Access, arrays: seq<seq<Const>>, k: nat, flat: seq<Const>)
    requires Serves(a, arrays, flat) && k < |arrays|
    ensures Serves(Fill(a, Choose(|flat| + |arrays[k]|, k, |flat|, Hole)), arrays, flat + arrays[k])
  {
    var step := Choose(|flat| + |arrays[k]|, k, |flat|, Hole);
    var flat' := flat + arrays[k];
    forall i, b | 0 <= i < |flat'|
      ensures Read(Fill(Fill(a, step), b), arrays, i) == Some(flat'[i])
    {
      FillTwice(a, step, b);
      assert Read(Fill(a, Fill(step, b)), arrays, i) == if i < |flat| then Some(flat[i]) else Read(Fill(step, b), arrays, i);
    }
    forall i, b | i >= |flat'|
      ensures Read(Fill(Fill(a, step), b), arrays, i) == Read(b, arrays, i)
    {
      FillTwice(a, step, b);
      assert Read(Fill(a, Fill(step, b)), arrays, i) == Read(Fill(step, b), arrays, i);
    }
  }

  lemma ServesLast(a: Access, arrays: seq<seq<Const>>, k: nat, flat: seq<Const>)
    requires Serves(a, arrays, flat) && k < |arrays|
    ensures forall i :: 0 <= i < |flat + arrays[k]| ==>
              Read(Fill(a, Item(k, |flat|)), arrays, i) == Some((flat + arrays[k])[i])
  {
  }

  /** The nested conditional reads, at every index, the constant of that number; names follow the same order. */
  method BuildAccess(buckets: seq<seq<Const>>, offset: nat) returns (access: Access, defines: seq<Define>)
    requires buckets != [] && buckets[|buckets| - 1] != []
    ensures forall i :: 0 <= i < |Flatten(buckets)| ==> Read(access, buckets, i) == Some(Flatten(buckets)[i])
    ensures defines == Defines(Flatten(buckets), offset)
  {
    access, defines := Hole, [];
    var seen := 0;
    for k := 0 to |buckets|
      invariant seen == |Flatten(buckets[..k])| && defines == Defines(Flatten(buckets[..k]), offset)
      invariant k < |buckets| ==> Serves(access, buckets, Flatten(buckets[..k]))
      invariant k == |buckets| ==> forall i :: 0 <= i < |Flatten(buckets)| ==>
                                      Read(access, buckets, i) == Some(Flatten(buckets)[i])
    {
      ghost var flat := Flatten(buckets[..k]);
      assert buckets[..k + 1][..k] == buckets[..k];
      assert Flatten(buckets[..k + 1]) == flat + buckets[k];
      assert buckets[..|buckets|] == buckets;
      if buckets[k] != [] {
        defines := defines + Defines(buckets[k], offset + seen);
        DefinesAdd(flat, buckets[k], offset);
        var start := seen;
        seen := seen + |buckets[k]|;
        if k + 1 == |buckets| {
          ServesLast(access, buckets, k, flat);
          access := Fill(access, Item(k, start));
        } else {
          ServesMore(access, buckets, k, flat);
          access := Fill(access, Choose(seen, k, start, Hole));
        }
      } else {
        assert flat + buckets[k] == flat;
      }
    }
    assert buckets[..|buckets|] == buckets;
  }

  // ----- The generated code -----

  /** The float array, the integer arrays with the expression that reads them, the function that makes a Python
      integer of it, the string of the large integers, and the names. */
  datatype Program = Program(floats: seq<Const>, arrays: seq<seq<Const>>, access: Access, intCount: nat, longLong: bool,
                             text: string, largeCount: nat, defines: seq<Define>)

  /** A C long is only known to have 32 bits. */
  function FromC(c: Option<Const>, longLong: bool): Option<Object> {
    if c.Some? && c.value.Int? && (longLong || Abs(c.value.value) < Pow2(31)) then Some(PyInt(c.value.value)) else None
  }

  function FromText(v: Option<int>): Option<Object> {
    if v.Some? then Some(PyInt(v.value)) else None
  }

  /** The table after the generated loops have run: floats, then the integer loop, then the parsing loop. */
  function TableOf(p: Program): seq<Option<Object>> {
    var large := ReadAll(Unescape(p.text) + "\0", p.largeCount);
    seq(|p.floats|, k requires 0 <= k < |p.floats| => Some(ObjectOf(p.floats[k]))) +
    seq(p.intCount, i => FromC(Read(p.access, p.arrays, i), p.longLong)) +
    seq(p.largeCount, k requires 0 <= k < p.largeCount => FromText(large[k]))
  }

  function IntsOf(large: seq<Const>): (r: seq<int>)
    requires forall c <- large :: c.Int?
    ensures |r| == |large|
  {
    seq(|large|, k requires 0 <= k < |large| => assert large[k] in large; large[k].value)
  }

  lemma {:induction false} ValuesAt(vs: seq<int>, k: nat)
    requires k < |vs|
    ensures |Values(vs)| == |vs| && Values(vs)[k] == Some(vs[k])
  {
    if |vs| > 1 {
      ValuesAt(vs[1..], if k > 0 then k - 1 else 0);
    }
  }

  /** What the third loop stores. */
  lemma LargeRead(large: seq<Const>, k: nat)
    requires (forall c <- large :: c.Int?) && k < |large|
    ensures FromText(ReadAll(Unescape(Join(Texts(IntsOf(large)))) + "\0", |large|)[k]) == Some(ObjectOf(large[k]))
  {
    TextRead(IntsOf(large));
    ValuesAt(IntsOf(large), k);
    assert large[k] in large;
  }

  lemma FitsNarrow(c: Const, k: nat)
    requires Fits(c, k) && k <= 2
    ensures c.Int? && Abs(c.value) < Pow2(31)
  {
    hide Pow2;
    Widths();
    assert Pow2(k) <= 4;
    Doubling(8 * Pow2(k) - 1, 31);
  }

  /** With at most three array widths every constant fits 32 bits, so the narrower function is enough. */
  lemma {:induction false} NarrowFits(buckets: seq<seq<Const>>, c: Const)
    requires c in Flatten(buckets) && |buckets| <= 3
    requires forall k, j :: 0 <= k < |buckets| && 0 <= j < |buckets[k]| ==> Fits(buckets[k][j], k)
    ensures c.Int? && Abs(c.value) < Pow2(31)
  {
    hide Fits, Pow2;
    var n := |buckets| - 1;
    if c in buckets[n] {
      var j :| 0 <= j < |buckets[n]| && buckets[n][j] == c;
      FitsNarrow(buckets[n][j], n);
    } else {
      NarrowFits(buckets[..n], c);
    }
  }

  lemma {:induction false} Doubling(a: nat, b: nat)
    requires a <= b
    ensures Pow2(a) <= Pow2(b)
    decreases b
  {
    if a < b {
      Doubling(a, b - 1);
    }
  }

  lemma NoText()
    ensures Join(Texts(IntsOf([]))) == ""
  {
  }

  method LargeText(large: seq<Const>) returns (text: string)
    requires forall c <- large :: c.Int?
    ensures text == Join(Texts(IntsOf(large)))
  {
    hide Base32, Join;
    var texts := [];
    for i := 0 to |large|
      invariant texts + Texts(IntsOf(large)[i..]) == Texts(IntsOf(large))
    {
      assert large[i] in large;
      var t := ToBase32(large[i].value);
      assert IntsOf(large)[i..][1..] == IntsOf(large)[i + 1..];
      assert texts + ([t] + Texts(IntsOf(large)[i + 1..])) == texts + [t] + Texts(IntsOf(large)[i + 1..]);
      texts := texts + [t];
    }
    assert IntsOf(large)[|large|..] == [] && texts + [] == texts;
    text := Join(texts);
  }

  lemma TableAt(p: Program, ints: seq<Const>, large: seq<Const>, k: nat)
    requires p.intCount == |ints| && ints == Flatten(p.arrays) && p.longLong == (|p.arrays| > 3) && BucketsValid(p.arrays)
    requires forall i :: 0 <= i < |ints| ==> Read(p.access, p.arrays, i) == Some(ints[i])
    requires (forall c <- ints + large :: c.Int?) && p.largeCount == |large| && p.text == Join(Texts(IntsOf(large)))
    requires k < |p.floats| + |ints| + |large|
    ensures TableOf(p)[k] == Some(ObjectOf((p.floats + ints + large)[k]))
  {
    hide Flatten, Read, ReadAll, Unescape, Join, Texts, Pow2;
    if |p.floats| <= k < |p.floats| + |ints| {
      var c := ints[k - |p.floats|];
      assert c in ints && c in ints + large;
      if !p.longLong {
        NarrowFits(p.arrays, c);
      }
    } else if k >= |p.floats| + |ints| {
      assert forall c <- large :: c in ints + large;
      LargeRead(large, k - |p.floats| - |ints|);
    }
  }

  /** The generated table is right: every place holds the constant that the arrangement puts there, and every name
      stands for the place of its own constant. */
  method GenerateNumConstants(consts: seq<Const>) returns (p: Program)
    ensures |TableOf(p)| == |Arranged(consts)|
    ensures forall k :: 0 <= k < |Arranged(consts)| ==> TableOf(p)[k] == Some(ObjectOf(Arranged(consts)[k]))
    ensures p.defines == Defines(Arranged(consts), 0)
  {
    hide Flatten, Read, Only, ReadAll, Unescape, Join, Texts, BitLength, Pow2;
    var floats, buckets, large, intCount := SplitConstants(consts);
    var defines := Defines(floats, 0);
    var access := Hole;
    var offset := |floats|;
    if intCount > 0 {
      var more;
      access, more := BuildAccess(buckets, offset);
      defines := defines + more;
    }
    DefinesAdd(floats, Flatten(buckets), 0);
    offset := offset + intCount;
    var text := "";
    if large != [] {
      text := LargeText(large);
    }
    defines := defines + Defines(large, offset);
    DefinesAdd(floats + Flatten(buckets), large, 0);
    p := Program(floats, buckets, access, intCount, |buckets| > 3, text, |large|, defines);
    if large == [] {
      NoText();
    }
    forall k | 0 <= k < |Arranged(consts)|
      ensures TableOf(p)[k] == Some(ObjectOf(Arranged(consts)[k]))
    {
      TableAt(p, Flatten(buckets), large, k);
    }
  }
}
