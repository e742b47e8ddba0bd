/** Character sets as single characters and closed ranges, and their escaped form in source text
    (`to_ranges`, `escape_chars` and `make_split_strings` of Tools/cython-generate-lexicon.py).
    Characters are their code points. */
module CharacterRanges {

  /** The characters from `low` to `high`. */
  function Span(low: int, high: int): (s: seq<int>)
    ensures forall c :: c in s <==> low <= c <= high
    decreases high - low
  {
    if low > high then [] else Span(low, high - 1) + [high]
  }

  /** A range is stored as two characters, its first and its last. */
  datatype Ranges = Ranges(singles: seq<int>, pairs: seq<int>)
  {
    predicate Paired() {
      |pairs| % 2 == 0
    }

    function Count(): nat {
      |pairs| / 2
    }

    function Low(k: nat): int
      requires Paired() && k < Count()
    {
      pairs[2 * k]
    }

    function High(k: nat): int
      requires Paired() && k < Count()
    {
      pairs[2 * k + 1]
    }

    /** Every character as often as it is listed. */
    ghost function Listed(): multiset<int>
      requires Paired()
    {
      multiset(singles) + InPairs(pairs)
    }

    ghost predicate InOrder()
      requires Paired()
    {
      && (forall k, l :: 0 <= k < l < |singles| ==> singles[k] <= singles[l])
      && (forall k, l :: 0 <= k < l < Count() ==> High(k) <= Low(l))
    }

    ghost predicate UpTo(c: int)
      requires Paired()
    {
      && (forall k :: 0 <= k < |singles| ==> singles[k] <= c)
      && (forall k :: 0 <= k < Count() ==> High(k) <= c)
    }
  }

  ghost function InPairs(pairs: seq<int>): multiset<int>
    requires |pairs| % 2 == 0
  {
    if pairs == [] then multiset{}
    else
      var n := |pairs| - 2;
      InPairs(pairs[..n]) + multiset(Span(pairs[n], pairs[n + 1]))
  }

  // ----- Sorting -----

  ghost predicate Sorted(cs: seq<int>) {
    forall i, j :: 0 <= i < j < |cs| ==> cs[i] <= cs[j]
  }

  ghost predicate Distinct(cs: seq<int>) {
    forall c :: multiset(cs)[c] <= 1
  }

  function Insert(cs: seq<int>, c: int): (r: seq<int>)
    ensures multiset(r) == multiset(cs) + multiset{c}
  {
    if cs == [] || c <= cs[0] then [c] + cs
    else
      assert cs == [cs[0]] + cs[1..];
      [cs[0]] + Insert(cs[1..], c)
  }

  lemma SortedMore(c: int, rest: seq<int>)
    requires Sorted(rest) && forall k :: 0 <= k < |rest| ==> c <= rest[k]
    ensures Sorted([c] + rest)
  {
  }

  lemma SortedLess(cs: seq<int>)
    requires Sorted(cs) && cs != []
    ensures Sorted(cs[1..]) && forall k :: 0 <= k < |cs| ==> cs[0] <= cs[k]
  {
  }

  lemma InsertMember(cs: seq<int>, c: int, x: int)
    requires x in Insert(cs, c)
    ensures x == c || x in cs
  {
    assert x in multiset(Insert(cs, c));
    assert x in multiset(cs) || x == c;
  }

  lemma {:induction false} InsertSorted(cs: seq<int>, c: int)
    requires Sorted(cs)
    ensures Sorted(Insert(cs, c))
  {
    hide Sorted;
    if cs == [] {
      SortedMore(c, cs);
    } else if c <= cs[0] {
      SortedLess(cs);
      SortedMore(c, cs);
    } else {
      var rest := Insert(cs[1..], c);
      SortedLess(cs);
      InsertSorted(cs[1..], c);
      forall k | 0 <= k < |rest|
        ensures cs[0] <= rest[k]
      {
        InsertMember(cs[1..], c, rest[k]);
      }
      SortedMore(cs[0], rest);
    }
  }

  /** `sorted`, by what it promises. */
  function Sort(cs: seq<int>): (r: seq<int>)
    ensures multiset(r) == multiset(cs) && Sorted(r)
  {
    if cs == [] then []
    else
      assert cs == [cs[0]] + cs[1..];
      (InsertSorted(Sort(cs[1..]), cs[0]); Insert(Sort(cs[1..]), cs[0]))
  }

  // ----- Runs of consecutive characters -----

  ghost predicate RunStarts(cs: seq<int>, i: nat)
    requires i < |cs|
  {
    i == 0 || cs[i] - 1 != cs[i - 1]
  }

  ghost predicate RunEnds(cs: seq<int>, i: nat)
    requires i < |cs|
  {
    i == |cs| - 1 || cs[i + 1] - 1 != cs[i]
  }

  ghost predicate Consecutive(cs: seq<int>, i: nat, j: nat) {
    i <= j < |cs| && forall k :: i <= k <= j ==> cs[k] == cs[i] + (k - i)
  }

  /** The elements from i to j are consecutive and cannot be extended on either side. */
  ghost predicate IsRun(cs: seq<int>, i: nat, j: nat) {
    Consecutive(cs, i, j) && RunStarts(cs, i) && RunEnds(cs, j)
  }

  ghost predicate IsSingle(cs: seq<int>, c: int) {
    exists i: nat :: IsRun(cs, i, i) && cs[i] == c
  }

  ghost predicate IsRange(cs: seq<int>, low: int, high: int) {
    exists i: nat, j: nat :: i < j && IsRun(cs, i, j) && cs[i] == low && cs[j] == high
  }

  /** Each single character is a run of one, each range a longer run. */
  ghost predicate Runs(cs: seq<int>, r: Ranges)
    requires r.Paired()
  {
    && (forall k :: 0 <= k < |r.singles| ==> IsSingle(cs, r.singles[k]))
    && (forall k :: 0 <= k < r.Count() ==> IsRange(cs, r.Low(k), r.High(k)))
  }

  /** Neither single characters nor ranges could be joined with a neighbour. */
  ghost predicate Maximal(cs: seq<int>, r: Ranges)
    requires r.Paired()
  {
    && (forall k :: 0 <= k < |r.singles| ==> r.singles[k] - 1 !in cs && r.singles[k] + 1 !in cs)
    && (forall k :: 0 <= k < r.Count() ==> r.Low(k) < r.High(k) && r.Low(k) - 1 !in cs && r.High(k) + 1 !in cs)
  }

  /** Where nothing occurs twice, a run is all there is around it. */
  lemma RunIsAlone(cs: seq<int>, i: nat, j: nat)
    requires Sorted(cs) && Distinct(cs) && IsRun(cs, i, j)
    ensures cs[i] - 1 !in cs && cs[j] + 1 !in cs
  {
    forall k | 0 <= k < |cs|
      ensures cs[k] != cs[i] - 1 && cs[k] != cs[j] + 1
    {
      if k + 1 < i {
        Apart(cs, k, i - 1);
        Apart(cs, i - 1, i);
      } else if k > j + 1 {
        Apart(cs, j, j + 1);
        Apart(cs, j + 1, k);
      } else if k == i - 1 {
        assert RunStarts(cs, i);
      } else if k == j + 1 {
        assert RunEnds(cs, j);
      }
    }
  }

  lemma Apart(cs: seq<int>, i: nat, j: nat)
    requires Sorted(cs) && Distinct(cs) && i < j < |cs|
    ensures cs[i] < cs[j]
  {
    assert cs == cs[..j] + cs[j..];
    assert cs[i] in cs[..j] && cs[j] in cs[j..];
    assert multiset(cs)[cs[i]] == multiset(cs[..j])[cs[i]] + multiset(cs[j..])[cs[i]];
  }

  lemma SingleIsAlone(cs: seq<int>, c: int)
    requires Sorted(cs) && Distinct(cs) && IsSingle(cs, c)
    ensures c - 1 !in cs && c + 1 !in cs
  {
    var i: nat :| IsRun(cs, i, i) && cs[i] == c;
    RunIsAlone(cs, i, i);
  }

  lemma RangeIsAlone(cs: seq<int>, low: int, high: int)
    requires Sorted(cs) && Distinct(cs) && IsRange(cs, low, high)
    ensures low < high && low - 1 !in cs && high + 1 !in cs
  {
    var i: nat, j: nat :| i < j && IsRun(cs, i, j) && cs[i] == low && cs[j] == high;
    RunIsAlone(cs, i, j);
  }

  lemma RunsAreMaximal(cs: seq<int>, r: Ranges)
    requires Sorted(cs) && Distinct(cs) && r.Paired() && Runs(cs, r)
    ensures Maximal(cs, r)
  {
    hide Sorted, Distinct, IsSingle, IsRange;
    forall k | 0 <= k < |r.singles|
      ensures r.singles[k] - 1 !in cs && r.singles[k] + 1 !in cs
    {
      SingleIsAlone(cs, r.singles[k]);
    }
    forall k | 0 <= k < r.Count()
      ensures r.Low(k) < r.High(k) && r.Low(k) - 1 !in cs && r.High(k) + 1 !in cs
    {
      RangeIsAlone(cs, r.Low(k), r.High(k));
    }
  }

  /** `r` has exactly the first n elements, cut at the end of a run. */
  ghost predicate Covers(cs: seq<int>, r: Ranges, n: nat)
    requires n <= |cs|
  {
    && r.Paired() && Runs(cs, r) && r.InOrder() && r.Listed() == multiset(cs[..n])
    && (n < |cs| ==> r.UpTo(cs[n]))
  }

  lemma Begin(cs: seq<int>)
    ensures Covers(cs, Ranges([], []), 0)
    ensures cs != [] ==> Consecutive(cs, 0, 0) && RunStarts(cs, 0)
  {
    assert Ranges([], []).Count() == 0;
  }

  lemma Prefix(cs: seq<int>, i: nat, j: nat)
    requires Consecutive(cs, i, j)
    ensures multiset(cs[..j + 1]) == multiset(cs[..i]) + multiset(Span(cs[i], cs[j]))
  {
    assert cs[..j + 1] == cs[..i] + cs[i..j + 1];
    SpanIs(cs[i], cs[j]);
    assert cs[i..j + 1] == Span(cs[i], cs[j]);
  }

  lemma {:induction false} SpanIs(low: int, high: int)
    requires low <= high
    ensures |Span(low, high)| == high - low + 1 && forall k :: 0 <= k <= high - low ==> Span(low, high)[k] == low + k
    decreases high - low
  {
    if low < high {
      SpanIs(low, high - 1);
    } else {
      assert Span(low, high - 1) == [];
    }
  }

  lemma SingleListed(r: Ranges, c: int)
    requires r.Paired()
    ensures r.(singles := r.singles + [c]).Listed() == r.Listed() + multiset{c}
  {
    hide InPairs;
  }

  lemma SingleInOrder(r: Ranges, c: int)
    requires r.Paired() && r.InOrder() && r.UpTo(c)
    ensures var r' := r.(singles := r.singles + [c]);
            r'.InOrder() && forall d :: c <= d ==> r'.UpTo(d)
  {
    var r' := r.(singles := r.singles + [c]);
    assert r'.Count() == r.Count() && forall k :: 0 <= k < r.Count() ==> r'.Low(k) == r.Low(k) && r'.High(k) == r.High(k);
  }

  lemma SingleRuns(cs: seq<int>, r: Ranges, c: int)
    requires r.Paired() && Runs(cs, r) && IsSingle(cs, c)
    ensures Runs(cs, r.(singles := r.singles + [c]))
  {
    hide IsSingle, IsRange;
    var r' := r.(singles := r.singles + [c]);
    assert r'.Count() == r.Count() && forall k :: 0 <= k < r.Count() ==> r'.Low(k) == r.Low(k) && r'.High(k) == r.High(k);
  }

  lemma SingleAdded(cs: seq<int>, r: Ranges, i: nat)
    requires Sorted(cs) && IsRun(cs, i, i) && Covers(cs, r, i)
    ensures Covers(cs, r.(singles := r.singles + [cs[i]]), i + 1)
  {
    hide Ranges.Listed, Ranges.InOrder, Ranges.UpTo, Runs;
    SingleListed(r, cs[i]);
    SingleInOrder(r, cs[i]);
    assert IsSingle(cs, cs[i]);
    SingleRuns(cs, r, cs[i]);
    assert cs[..i + 1] == cs[..i] + [cs[i]];
  }

  /** One more range. */
  lemma PairIs(r: Ranges, low: int, high: int)
    requires r.Paired()
    ensures var r', n := r.(pairs := r.pairs + [low, high]), r.Count();
            && r'.Paired() && r'.Count() == n + 1 && r'.Low(n) == low && r'.High(n) == high
            && forall k :: 0 <= k < n ==> r'.Low(k) == r.Low(k) && r'.High(k) == r.High(k)
  {
  }

  lemma PairListed(r: Ranges, low: int, high: int)
    requires r.Paired()
    ensures r.(pairs := r.pairs + [low, high]).Listed() == r.Listed() + multiset(Span(low, high))
  {
    var pairs := r.pairs + [low, high];
    assert pairs[..|pairs| - 2] == r.pairs;
    assert InPairs(pairs) == InPairs(r.pairs) + multiset(Span(low, high));
  }

  lemma PairInOrder(r: Ranges, low: int, high: int)
    requires r.Paired() && r.InOrder() && r.UpTo(low) && low <= high
    ensures var r' := r.(pairs := r.pairs + [low, high]);
            r'.InOrder() && forall d :: high <= d ==> r'.UpTo(d)
  {
    hide Ranges.Count, Ranges.High, Ranges.Low;
    PairIs(r, low, high);
  }

  lemma PairRuns(cs: seq<int>, r: Ranges, low: int, high: int)
    requires r.Paired() && Runs(cs, r) && IsRange(cs, low, high)
    ensures Runs(cs, r.(pairs := r.pairs + [low, high]))
  {
    hide IsSingle, IsRange, Ranges.Count, Ranges.High, Ranges.Low;
    PairIs(r, low, high);
  }

  lemma RangeAdded(cs: seq<int>, r: Ranges, i: nat, j: nat)
    requires Sorted(cs) && i < j && IsRun(cs, i, j) && Covers(cs, r, i)
    ensures Covers(cs, r.(pairs := r.pairs + [cs[i], cs[j]]), j + 1)
  {
    hide Ranges.Listed, Ranges.InOrder, Ranges.UpTo, Runs;
    PairIs(r, cs[i], cs[j]);
    PairListed(r, cs[i], cs[j]);
    PairInOrder(r, cs[i], cs[j]);
    assert IsRange(cs, cs[i], cs[j]);
    PairRuns(cs, r, cs[i], cs[j]);
    Prefix(cs, i, j);
  }

  lemma CoversAll(cs: seq<int>, r: Ranges)
    requires Sorted(cs) && Covers(cs, r, |cs|)
    ensures r.Paired() && r.InOrder() && r.Listed() == multiset(cs)
    ensures Distinct(cs) ==> Maximal(cs, r)
  {
    assert cs[..|cs|] == cs;
    if Distinct(cs) {
      RunsAreMaximal(cs, r);
    }
  }

  lemma MaximalAgain(cs: seq<int>, ds: seq<int>, r: Ranges)
    requires multiset(cs) == multiset(ds) && r.Paired()
    ensures Maximal(cs, r) ==> Maximal(ds, r)
    ensures Distinct(cs) <==> Distinct(ds)
  {
    assert forall c :: c in ds <==> c in multiset(ds);
    assert forall c :: c in cs <==> c in multiset(cs);
  }

  lemma SortMembers(cs: seq<int>)
    requires forall c <- cs :: c >= 0
    ensures forall k :: 0 <= k < |Sort(cs)| ==> Sort(cs)[k] >= 0
  {
    var sorted := Sort(cs);
    forall k | 0 <= k < |sorted|
      ensures sorted[k] >= 0
    {
      assert sorted[k] in multiset(sorted) && sorted[k] in multiset(cs);
      assert sorted[k] in cs;
    }
  }

  /** At the end of `cs`, the sentinel cannot continue a run. */
  lemma NextInRun(cs: seq<int>, chars: seq<int>, i: nat, n: nat)
    requires chars == cs + [-1] && n < |chars| && (forall k :: 0 <= k < |cs| ==> cs[k] >= 0)
    requires i < n && Consecutive(cs, i, n - 1) && RunStarts(cs, i)
    ensures chars[n] - 1 == chars[n - 1] ==> n < |cs| && Consecutive(cs, i, n)
    ensures chars[n] - 1 != chars[n - 1] ==> IsRun(cs, i, n - 1) && (n < |cs| ==> Consecutive(cs, n, n) && RunStarts(cs, n))
    ensures chars[i] == chars[n - 1] <==> i == n - 1
  {
    assert cs[n - 1] >= 0 && cs[n - 1] == cs[i] + (n - 1 - i);
  }

  /** The sentinel -1 ends the last run. */
  method ToRanges(charNumList: seq<int>) returns (r: Ranges)
    requires forall c <- charNumList :: c >= 0
    ensures r.Paired() && r.InOrder() && r.Listed() == multiset(charNumList)
    ensures Distinct(charNumList) ==> Maximal(charNumList, r)
  {
    hide Covers, Maximal, Distinct, Ranges.Listed, Ranges.InOrder, Consecutive, RunStarts, IsRun, Sorted, InPairs;
    ghost var sorted := Sort(charNumList);
    SortMembers(charNumList);
    var chars := Sort(charNumList) + [-1];
    var first := chars[0];
    var singles, ranges := [], [];
    ghost var start := 0;
    Begin(sorted);
    for n := 1 to |chars|
      invariant start < n && first == chars[start] && Covers(sorted, Ranges(singles, ranges), start)
      invariant n < |chars| ==> Consecutive(sorted, start, n - 1) && RunStarts(sorted, start)
      invariant n == |chars| ==> start == |sorted|
    {
      NextInRun(sorted, chars, start, n);
      if chars[n] - 1 != chars[n - 1] {
        if first == chars[n - 1] {
          SingleAdded(sorted, Ranges(singles, ranges), start);
          singles := singles + [chars[n - 1]];
        } else {
          RangeAdded(sorted, Ranges(singles, ranges), start, n - 1);
          ranges := ranges + [first, chars[n - 1]];
        }
        first := chars[n];
        start := n;
      }
    }
    r := Ranges(singles, ranges);
    CoversAll(sorted, r);
    MaximalAgain(sorted, charNumList, r);
  }

  // ----- Escapes -----

  datatype Option<+T> = None | Some(value: T)

  function HexDigit(d: nat): char
    requires d < 16
  {
    if d < 10 then '0' + d as char else 'a' + (d - 10) as char
  }

  function DigitValue(c: char): (d: nat)
    ensures d < 16
  {
    if '0' <= c <= '9' then (c - '0') as int else if 'a' <= c <= 'f' then (c - 'a') as int + 10 else 0
  }

  /** The last `width` hexadecimal digits, padded with zeros. */
  function Hex(n: nat, width: nat): (s: string)
    ensures |s| == width
    decreases width
  {
    if width == 0 then "" else Hex(n / 16, width - 1) + [HexDigit(n % 16)]
  }

  function HexValue(s: string): nat {
    if s == "" then 0 else 16 * HexValue(s[..|s| - 1]) + DigitValue(s[|s| - 1])
  }

  function Pow16(k: nat): nat {
    if k == 0 then 1 else 16 * Pow16(k - 1)
  }

  lemma {:induction false} HexRead(n: nat, width: nat)
    requires n < Pow16(width)
    ensures HexValue(Hex(n, width)) == n
    decreases width
  {
    if width > 0 {
      HexRead(n / 16, width - 1);
      assert Hex(n, width)[..width - 1] == Hex(n / 16, width - 1);
    }
  }

  function EscapeChar(c: nat): (s: string)
    ensures s != "" && |s| <= 10
  {
    if c > 65535 then "\\U" + Hex(c, 8) else "\\u" + Hex(c, 4)
  }

  method EscapeChars(chars: seq<nat>) returns (s: string)
    ensures s == Escaped(chars)
  {
    s := "";
    for i := 0 to |chars|
      invariant s + Escaped(chars[i..]) == Escaped(chars)
    {
      Shift(s, EscapeChar(chars[i]), Escaped(chars[i + 1..]));
      s := s + EscapeChar(chars[i]);
    }
  }

  lemma Shift(a: string, b: string, c: string)
    ensures a + (b + c) == a + b + c
  {
  }

  function Escaped(chars: seq<nat>): (s: string)
    ensures |s| <= 10 * |chars|
  {
    if chars == [] then "" else EscapeChar(chars[0]) + Escaped(chars[1..])
  }

  /** The contents of a string literal made of such escapes. */
  function ReadEscapes(s: string): Option<seq<nat>> {
    if s == "" then Some([])
    else
      var width := if |s| < 2 || s[0] != '\\' then 0 else if s[1] == 'u' then 4 else if s[1] == 'U' then 8 else 0;
      if width == 0 || |s| < 2 + width then None
      else
        match ReadEscapes(s[2 + width..])
        case None => None
        case Some(rest) => Some([HexValue(s[2..2 + width])] + rest)
  }

  /** One literal per line, `splitBy / 10` characters each; a step of zero is an error. */
  function SplitStrings(chars: seq<nat>, splitBy: nat, indent: string): (text: Option<string>) {
    if splitBy / 10 == 0 then None else Some(indent + Join(Literals(chars, splitBy / 10), "\n" + indent))
  }

  function Literals(chars: seq<nat>, step: nat): seq<string>
    requires step > 0
  {
    if chars == [] then []
    else
      var n := if step < |chars| then step else |chars|;
      ["\"" + Escaped(chars[..n]) + "\""] + Literals(chars[n..], step)
  }

  function Join(lines: seq<string>, separator: string): string {
    if lines == [] then "" else if |lines| == 1 then lines[0] else lines[0] + separator + Join(lines[1..], separator)
  }

  /** What parentheses mean in Python that hold string literals and white space only. */
  datatype Value = EmptyTuple | Text(chars: seq<nat>) | Malformed

  predicate IsBlank(c: char) {
    c == ' ' || c == '\t' || c == '\n'
  }

  predicate Blank(s: string) {
    forall i :: 0 <= i < |s| ==> IsBlank(s[i])
  }

  /** The position of the next quote. */
  function Closing(s: string): (n: nat)
    ensures n <= |s| && (n < |s| ==> s[n] == '"') && forall i :: 0 <= i < n ==> s[i] != '"'
  {
    if s == "" || s[0] == '"' then 0 else 1 + Closing(s[1..])
  }

  /** Adjacent literals are one string. */
  function ReadText(s: string): Value
    decreases |s|
  {
    if s == "" then EmptyTuple
    else if IsBlank(s[0]) then ReadText(s[1..])
    else if s[0] != '"' then Malformed
    else
      var n := Closing(s[1..]) + 1;
      if n == |s| then Malformed
      else
        match ReadEscapes(s[1..n])
        case None => Malformed
        case Some(chars) => Adjacent(chars, ReadText(s[n + 1..]))
  }

  function Adjacent(chars: seq<nat>, rest: Value): Value {
    match rest
    case EmptyTuple => Text(chars)
    case Text(more) => Text(chars + more)
    case Malformed => Malformed
  }

  predicate CodePoints(chars: seq<nat>) {
    forall i :: 0 <= i < |chars| ==> chars[i] < 0x110000
  }

  lemma OneEscape(c: nat, rest: string)
    requires c < 0x110000
    ensures ReadEscapes(EscapeChar(c) + rest) ==
            match ReadEscapes(rest) case None => None case Some(r) => Some([c] + r)
  {
    hide HexValue, Hex;
    var s, width := EscapeChar(c) + rest, if c > 65535 then 8 else 4;
    Pow16s();
    HexRead(c, width);
    assert s[2..2 + width] == Hex(c, width) && s[2 + width..] == rest;
  }

  lemma Pow16s()
    ensures Pow16(4) == 0x10000 && Pow16(8) == 0x1_0000_0000
  {
    assert Pow16(2) == 256;
    assert Pow16(4) == 256 * Pow16(2);
    assert Pow16(6) == 256 * Pow16(4);
    assert Pow16(8) == 256 * Pow16(6);
  }

  lemma {:induction false} EscapesRead(chars: seq<nat>)
    requires CodePoints(chars)
    ensures ReadEscapes(Escaped(chars)) == Some(chars)
  {
    hide ReadEscapes, EscapeChar;
    if chars == [] {
      NoEscapes();
    } else {
      OneEscape(chars[0], Escaped(chars[1..]));
      EscapesRead(chars[1..]);
      assert chars == [chars[0]] + chars[1..];
    }
  }

  lemma NoEscapes()
    ensures ReadEscapes("") == Some([])
  {
  }

  lemma {:induction false} HexPlain(n: nat, width: nat)
    ensures forall i :: 0 <= i < width ==> Hex(n, width)[i] != '"'
    decreases width
  {
    if width > 0 {
      HexPlain(n / 16, width - 1);
    }
  }

  lemma {:induction false} EscapedPlain(chars: seq<nat>)
    ensures forall i :: 0 <= i < |Escaped(chars)| ==> Escaped(chars)[i] != '"'
  {
    if chars != [] {
      HexPlain(chars[0], 8);
      HexPlain(chars[0], 4);
      EscapedPlain(chars[1..]);
    }
  }

  lemma {:induction false} BlankRead(blank: string, s: string)
    requires Blank(blank)
    ensures ReadText(blank + s) == ReadText(s)
  {
    hide ReadEscapes;
    if blank == "" {
      assert blank + s == s;
    } else {
      assert (blank + s)[1..] == blank[1..] + s;
      BlankRead(blank[1..], s);
    }
  }

  lemma LiteralRead(chars: seq<nat>, s: string)
    requires CodePoints(chars)
    ensures ReadText("\"" + Escaped(chars) + "\"" + s) == Adjacent(chars, ReadText(s))
  {
    hide ReadEscapes, Escaped;
    var body := Escaped(chars);
    var t := "\"" + body + "\"" + s;
    EscapedPlain(chars);
    EscapesRead(chars);
    assert t[1..] == body + "\"" + s && t[1..][|body|] == '"';
    assert forall i :: 0 <= i < |body| ==> t[1..][i] == body[i];
    assert Closing(t[1..]) == |body|;
    assert t[1..|body| + 1] == body && t[|body| + 2..] == s;
  }

  lemma {:induction false} LinesRead(chars: seq<nat>, step: nat, separator: string)
    requires CodePoints(chars) && step > 0 && Blank(separator)
    ensures ReadText(Join(Literals(chars, step), separator)) == if chars == [] then EmptyTuple else Text(chars)
    decreases |chars|
  {
    hide ReadText, Escaped;
    if chars == [] {
      EmptyRead();
    } else {
      var n := if step < |chars| then step else |chars|;
      var line, rest := "\"" + Escaped(chars[..n]) + "\"", Literals(chars[n..], step);
      assert Literals(chars, step)[1..] == rest;
      LinesRead(chars[n..], step, separator);
      if chars[n..] == [] {
        LiteralRead(chars, "");
        EmptyRead();
        assert line + "" == line && chars[..n] == chars;
      } else {
        assert line + separator + Join(rest, separator) == line + (separator + Join(rest, separator));
        LiteralRead(chars[..n], separator + Join(rest, separator));
        BlankRead(separator, Join(rest, separator));
        assert chars == chars[..n] + chars[n..];
      }
    }
  }

  lemma EmptyRead()
    ensures ReadText("") == EmptyTuple
  {
  }

  lemma {:induction false} LinesFit(chars: seq<nat>, step: nat)
    requires step > 0
    ensures forall i :: 0 <= i < |Literals(chars, step)| ==> |Literals(chars, step)[i]| <= 10 * step + 2
    decreases |chars|
  {
    if chars != [] {
      LinesFit(chars[if step < |chars| then step else |chars|..], step);
    }
  }

  /** Between parentheses, the text with any white space for an indent reads as the characters it was made of, or as
      an empty tuple if there are none; and no literal has more than `splitBy` characters between its quotes. */
  lemma SplitStringsRead(chars: seq<nat>, splitBy: nat, indent: string)
    requires CodePoints(chars) && Blank(indent)
    ensures var text := SplitStrings(chars, splitBy, indent);
            && (text.None? <==> splitBy < 10)
            && (text.Some? ==> ReadText("\n" + text.value + "\n") == if chars == [] then EmptyTuple else Text(chars))
    ensures splitBy >= 10 ==>
              forall i :: 0 <= i < |Literals(chars, splitBy / 10)| ==> |Literals(chars, splitBy / 10)[i]| <= splitBy + 2
  {
    hide ReadText, Join, Literals, Blank;
    if splitBy >= 10 {
      var step := splitBy / 10;
      var lines := Join(Literals(chars, step), "\n" + indent);
      LinesFit(chars, step);
      BlankMore(indent);
      LinesRead(chars, step, "\n" + indent);
      Wrapped(indent, lines);
      BlankRead("\n" + indent, lines + "\n");
      EndRead(lines);
    }
  }

  lemma BlankMore(indent: string)
    requires Blank(indent)
    ensures Blank("\n" + indent)
  {
  }

  lemma Wrapped(indent: string, lines: string)
    ensures "\n" + (indent + lines) + "\n" == ("\n" + indent) + (lines + "\n")
  {
  }

  /** White space after the last literal makes no difference either. */
  lemma {:induction false} EndRead(s: string)
    ensures ReadText(s + "\n") == ReadText(s)
    decreases |s|
  {
    hide ReadEscapes, Closing, Adjacent;
    var t := s + "\n";
    if s == "" {
      BlankRead(t, "");
      assert t + "" == t;
    } else {
      assert t[0] == s[0] && t[1..] == s[1..] + "\n";
      if IsBlank(s[0]) {
        EndRead(s[1..]);
      } else if s[0] == '"' {
        var n := Closing(s[1..]) + 1;
        ClosingMore(s[1..]);
        if n < |s| {
          assert t[1..n] == s[1..n] && t[n + 1..] == s[n + 1..] + "\n";
          EndRead(s[n + 1..]);
        }
      }
    }
  }

  lemma {:induction false} ClosingMore(s: string)
    ensures Closing(s + "\n") == if Closing(s) < |s| then Closing(s) else |s| + 1
  {
    if s != "" {
      assert (s + "\n")[1..] == s[1..] + "\n";
      ClosingMore(s[1..]);
    }
  }
}
