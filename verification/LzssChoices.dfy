/** What the compressor of Cython/LZSS.py chooses at each position, said of the bytes and of the items before it alone:
    `ChosenExactly`. */
module LzssChoices {
  import opened LzssSearch
  import opened Lzss

  /** `q` and `p` have `n` bytes in common, and the copy stays inside the data. */
  ghost predicate Agree(data: seq<byte>, q: nat, p: nat, n: nat) {
    q + n <= |data| && p + n <= |data| && data[q..q + n] == data[p..p + n]
  }

  lemma AgreeMore(data: seq<byte>, q: nat, p: nat, n: nat)
    requires q <= p && p + n < |data| && Agree(data, q, p, n)
    ensures Agree(data, q, p, n + 1) <==> data[q + n] == data[p + n]
  {
    var a, b := data[q..q + (n + 1)], data[p..p + (n + 1)];
    assert a == data[q..q + n] + [data[q + n]] && b == data[p..p + n] + [data[p + n]];
    assert a[n] == data[q + n] && b[n] == data[p + n];
  }

  lemma {:induction false} AgreeAt(data: seq<byte>, q: nat, p: nat, n: nat, i: nat)
    requires Agree(data, q, p, n) && i < n
    ensures data[q + i] == data[p + i]
  {
    assert data[q..q + n][i] == data[p..p + n][i];
  }

  /** The match of `p` with the earlier position `q` has length `n`: at least three bytes, otherwise no more than `lim`,
      and it ends there or at the first difference. */
  ghost predicate IsMatch(data: seq<byte>, q: nat, p: nat, lim: int, n: nat) {
    && n >= 3 && Agree(data, q, p, n) && (n == 3 || n <= lim)
    && (n >= lim || (p + n < |data| && q + n < |data| && data[q + n] != data[p + n]))
  }

  /** No match is longer than 258 bytes or what is left. */
  function Longest(data: seq<byte>, p: nat): int
    requires p <= |data|
  {
    if |data| - p < 258 then |data| - p else 258
  }

  function AtMost(a: int, b: int): int {
    if a < b then a else b
  }

  /** An earlier item starts at `q`, not too far back, with the same three bytes. */
  ghost predicate Considered(data: seq<byte>, earlier: set<nat>, p: nat, q: nat)
    requires p <= |data|
  {
    q in earlier && q < p && p - q <= 0x4000 + Longest(data, p) && Agree(data, q, p, 3)
  }

  ghost predicate Matches(data: seq<byte>, earlier: set<nat>, p: nat, q: nat, n: nat)
    requires p <= |data|
  {
    Considered(data, earlier, p, q) && IsMatch(data, q, p, AtMost(Longest(data, p), p - q), n)
  }

  /** A longest match, and the farthest of these. */
  ghost predicate IsBest(data: seq<byte>, earlier: set<nat>, p: nat, q: nat, n: nat)
    requires p <= |data|
  {
    Matches(data, earlier, p, q, n) &&
    forall q': nat, n': nat :: Matches(data, earlier, p, q', n') ==> n' < n || (n' == n && q <= q')
  }

  /** The next position has a match that is longer by more than one byte; this counts if the match at hand could have been
      longer and does not end with the data or one byte before. */
  ghost predicate NextIsBetter(data: seq<byte>, earlier: set<nat>, p: nat, n: nat)
    requires p <= |data|
  {
    && n < Longest(data, p) && p + n + 1 < |data|
    && exists q: nat, n': nat :: NextMatches(data, earlier, p, q, n') && n' > n + 1
  }

  ghost predicate NextMatches(data: seq<byte>, earlier: set<nat>, p: nat, q: nat, n: nat)
    requires p <= |data|
  {
    && q in earlier && q < p && p + 1 - q <= 0x4000 + Longest(data, p) && Agree(data, q, p + 1, 3)
    && IsMatch(data, q, p + 1, AtMost(AtMost(Longest(data, p), p - q), |data| - p - 1), n)
  }

  predicate FitsShort(offset: int, n: nat) {
    0 <= offset < 0x80
  }

  predicate FitsMedium(offset: int, n: nat) {
    0 <= offset < 0x200 && n < 3 + 0x20
  }

  predicate FitsLong(offset: int, n: nat) {
    0 <= offset < 0x4000 && n > 3
  }

  /** The first form that the stored offset and the length fit, and a literal if they fit none. */
  ghost predicate IsFirstForm(item: Item, offset: int, n: nat) {
    && (item.Short? <==> FitsShort(offset, n))
    && (item.Medium? <==> !FitsShort(offset, n) && FitsMedium(offset, n))
    && (item.Long? <==> !FitsShort(offset, n) && !FitsMedium(offset, n) && FitsLong(offset, n))
    && (!item.Literal? ==> item.offset == offset && item.length == n)
  }

  /** The item that has to be written at `p` when items start at the `earlier` positions. */
  ghost predicate IsRight(data: seq<byte>, earlier: set<nat>, p: nat, item: Item)
    requires p < |data|
  {
    && (item.Literal? ==> item.b == data[p])
    && ((forall q :: !Considered(data, earlier, p, q)) ==> item.Literal?)
    && ((exists q :: Considered(data, earlier, p, q)) ==>
          exists q: nat, n: nat :: IsBest(data, earlier, p, q, n) &&
            if NextIsBetter(data, earlier, p, n) then item.Literal? else IsFirstForm(item, p - q - n, n))
  }

  /** Where the items before the k-th one start, when the first one starts at `pos`. */
  function StartsBefore(items: seq<Item>, pos: nat, k: nat): set<nat>
    requires k <= |items|
  {
    if k == 0 then {} else StartsBefore(items, pos, k - 1) + {pos + Start(items, k - 1)}
  }

  // ----- The length of a match -----

  lemma {:induction false} ExtendIsMatch(data: seq<byte>, q: nat, p: nat, len: nat, lim: int)
    requires q < p && p + lim <= |data| && len >= 3 && Agree(data, q, p, len) && (len == 3 || len <= lim)
    ensures IsMatch(data, q, p, lim, Extend(data, q, p, len, lim))
    decreases lim - len
  {
    if len < lim && data[q + len] == data[p + len] {
      AgreeMore(data, q, p, len);
      ExtendIsMatch(data, q, p, len + 1, lim);
    }
  }

  lemma MatchIsUnique(data: seq<byte>, q: nat, p: nat, lim: int, a: nat, b: nat)
    requires IsMatch(data, q, p, lim, a) && IsMatch(data, q, p, lim, b)
    ensures a == b
  {
    NoLonger(data, q, p, lim, a, b);
    NoLonger(data, q, p, lim, b, a);
  }

  lemma NoLonger(data: seq<byte>, q: nat, p: nat, lim: int, a: nat, b: nat)
    requires IsMatch(data, q, p, lim, a) && IsMatch(data, q, p, lim, b)
    ensures b <= a
  {
    if a < b {
      AgreeAt(data, q, p, b, a);
    }
  }

  lemma MatchIs(data: seq<byte>, q: nat, p: nat, lim: int, n: nat)
    requires q < p && p + lim <= |data| && Agree(data, q, p, 3)
    ensures IsMatch(data, q, p, lim, n) <==> n == Extend(data, q, p, 3, lim)
  {
    ExtendIsMatch(data, q, p, 3, lim);
    if IsMatch(data, q, p, lim, n) {
      MatchIsUnique(data, q, p, lim, n, Extend(data, q, p, 3, lim));
    }
  }

  // ----- The recorded positions -----

  /** The table has every earlier position under its three bytes, and nothing else. */
  ghost predicate Recorded(data: seq<byte>, table: HashTable, earlier: set<nat>) {
    && (forall q <- earlier :: q < |data|)
    && forall key, q: nat :: (key in table && q in table[key]) <==> (q in earlier && q <= |data| && Key(data, q) == key)
  }

  lemma NothingRecorded(data: seq<byte>)
    ensures Recorded(data, map[], {}) && TableOk(data, 0, map[])
  {
  }

  lemma RecordedMore(data: seq<byte>, pos: nat, table: HashTable, earlier: set<nat>)
    requires pos < |data| && Recorded(data, table, earlier)
    ensures Recorded(data, Record(data, pos, table), earlier + {pos})
  {
    hide Key;
    var t := Record(data, pos, table);
    forall key, q: nat
      ensures (key in t && q in t[key]) <==> (q in earlier + {pos} && q <= |data| && Key(data, q) == key)
    {
      if key == Key(data, pos) {
        var before := if key in table then table[key] else [];
        assert t[key] == before + [pos];
        assert q in before + [pos] <==> q in before || q == pos;
      } else {
        assert key in t <==> key in table;
        assert key in table ==> t[key] == table[key];
      }
    }
  }

  lemma SameKey(data: seq<byte>, q: nat, p: nat)
    requires q < p && p + 3 <= |data|
    ensures Key(data, q) == Key(data, p) <==> Agree(data, q, p, 3)
  {
    assert Key(data, q) == data[q..q + 3] && Key(data, p) == data[p..p + 3];
  }

  /** What the search goes through is what is to be considered. */
  lemma ConsideredIs(data: seq<byte>, pos: nat, table: HashTable, earlier: set<nat>, q: nat)
    requires pos + 3 <= |data| && Recorded(data, table, earlier)
    ensures Considered(data, earlier, pos, q) <==>
            Key(data, pos) in table && q in table[Key(data, pos)] && InWindow(data, pos, q)
  {
    hide Key;
    if q < pos {
      SameKey(data, q, pos);
    }
  }

  lemma MatchesIs(data: seq<byte>, pos: nat, table: HashTable, earlier: set<nat>, q: nat, n: nat)
    requires pos + 3 <= |data| && Recorded(data, table, earlier)
    ensures Matches(data, earlier, pos, q, n) <==>
            && Key(data, pos) in table && q in table[Key(data, pos)] && InWindow(data, pos, q)
            && n == MatchLen(data, pos, MaxMatch(data, pos), q)
  {
    hide Key, Extend, IsMatch;
    ConsideredIs(data, pos, table, earlier, q);
    if Considered(data, earlier, pos, q) {
      MatchIs(data, q, pos, AtMost(Longest(data, pos), pos - q), n);
    }
  }

  /** The first scan finds the best match. */
  lemma BestIs(data: seq<byte>, pos: nat, table: HashTable, earlier: set<nat>) returns (q: nat)
    requires pos + 3 <= |data| && TableOk(data, pos, table) && Recorded(data, table, earlier) && Key(data, pos) in table
    requires exists q :: Considered(data, earlier, pos, q)
    ensures var best := Best(data, pos, MaxMatch(data, pos), WindowStart(data, pos), table[Key(data, pos)]);
      q < pos && best.0 == pos - q && IsBest(data, earlier, pos, q, best.1)
  {
    hide Extend, Key, Matches, Considered;
    var cands, maxMatch, start := table[Key(data, pos)], MaxMatch(data, pos), WindowStart(data, pos);
    var best := Best(data, pos, maxMatch, start, cands);
    var some :| Considered(data, earlier, pos, some);
    ConsideredIs(data, pos, table, earlier, some);
    var i :| 0 <= i < |cands| && cands[i] == some;
    BestIsLongest(data, pos, maxMatch, start, cands, i);
    var j := BestIsAttained(data, pos, maxMatch, start, cands);
    q := cands[j];
    assert q in cands;
    MatchesIs(data, pos, table, earlier, q, best.1);
    forall q', n' | Matches(data, earlier, pos, q', n')
      ensures n' < best.1 || (n' == best.1 && q <= q')
    {
      MatchesIs(data, pos, table, earlier, q', n');
      var k :| 0 <= k < |cands| && cands[k] == q';
      BestIsLongest(data, pos, maxMatch, start, cands, k);
      assert k < j ==> n' < best.1;
      assert j < k ==> cands[j] < cands[k];
    }
  }

  lemma {:induction false} NextBestReaches(data: seq<byte>, pos: nat, maxMatch: nat, start: nat, cands: seq<nat>, n: nat)
    requires pos + 1 <= |data|
    ensures NextBest(data, pos, maxMatch, start, cands) > n <==>
            exists j :: 0 <= j < |cands| && start <= cands[j] <= pos &&
              Extend(data, cands[j], pos + 1, 3, Min(Min(maxMatch, pos - cands[j]), |data| - pos - 1)) > n
    decreases |cands|
  {
    hide Extend;
    if cands != [] {
      var k := |cands| - 1;
      NextBestReaches(data, pos, maxMatch, start, cands[..k], n);
      forall j | 0 <= j < k
        ensures cands[..k][j] == cands[j]
      {
      }
    }
  }

  lemma NextMatchesIs(data: seq<byte>, pos: nat, table: HashTable, earlier: set<nat>, q: nat, n: nat)
    requires pos + 4 <= |data| && TableOk(data, pos, table) && Recorded(data, table, earlier)
    ensures NextMatches(data, earlier, pos, q, n) <==>
            && Key(data, pos + 1) in table && q in table[Key(data, pos + 1)]
            && Max(0, pos + 1 - WINDOW_SIZE - MaxMatch(data, pos)) <= q <= pos
            && n == Extend(data, q, pos + 1, 3, Min(Min(MaxMatch(data, pos), pos - q), |data| - pos - 1))
  {
    hide Key, Extend, IsMatch;
    if q <= pos {
      SameKey(data, q, pos + 1);
      if Agree(data, q, pos + 1, 3) {
        MatchIs(data, q, pos + 1, Min(Min(MaxMatch(data, pos), pos - q), |data| - pos - 1), n);
      }
    }
  }

  /** The second scan decides whether the next position is better. */
  lemma SkipsIs(data: seq<byte>, pos: nat, table: HashTable, earlier: set<nat>, n: nat)
    requires pos + 3 <= |data| && TableOk(data, pos, table) && Recorded(data, table, earlier) && n >= 3
    ensures LazySkips(data, pos, table, MaxMatch(data, pos), n) <==> NextIsBetter(data, earlier, pos, n)
  {
    hide Key, Extend, NextBest, NextMatches, Recorded;
    var maxMatch := MaxMatch(data, pos);
    if n < maxMatch && pos + n + 1 < |data| {
      var start, key := Max(0, pos + 1 - WINDOW_SIZE - maxMatch), Key(data, pos + 1);
      var cands := if key in table then table[key] else [];
      NextBestReaches(data, pos, maxMatch, start, cands, n + 1);
      if j :| 0 <= j < |cands| && start <= cands[j] <= pos &&
              Extend(data, cands[j], pos + 1, 3, Min(Min(maxMatch, pos - cands[j]), |data| - pos - 1)) > n + 1 {
        var m := Extend(data, cands[j], pos + 1, 3, Min(Min(maxMatch, pos - cands[j]), |data| - pos - 1));
        NextMatchesIs(data, pos, table, earlier, cands[j], m);
        assert NextMatches(data, earlier, pos, cands[j], m);
      }
      if q: nat, m: nat :| NextMatches(data, earlier, pos, q, m) && m > n + 1 {
        NextMatchesIs(data, pos, table, earlier, q, m);
        var j :| 0 <= j < |cands| && cands[j] == q;
      }
    }
  }

  lemma FormIs(data: seq<byte>, pos: nat, q: nat, n: nat)
    requires pos < |data| && q < pos && n >= 3
    ensures IsFirstForm(Choose(data[pos], (pos - q, n)), pos - q - n, n)
    ensures Choose(data[pos], (pos - q, n)).Literal? ==> Choose(data[pos], (pos - q, n)).b == data[pos]
  {
  }

  /** One item, chosen from a table of the earlier positions. */
  lemma NextIsRight(data: seq<byte>, pos: nat, table: HashTable, earlier: set<nat>)
    requires pos < |data| && TableOk(data, pos, table) && Recorded(data, table, earlier)
    ensures IsRight(data, earlier, pos, NextItem(data, pos, table))
  {
    hide Key, Considered, IsBest, NextIsBetter, Best, LazySkips, IsFirstForm, Recorded, TableOk;
    if pos + 3 <= |data| {
      if q :| Considered(data, earlier, pos, q) {
        ConsideredIs(data, pos, table, earlier, q);
        var maxMatch := MaxMatch(data, pos);
        var best := Best(data, pos, maxMatch, WindowStart(data, pos), table[Key(data, pos)]);
        var p := BestIs(data, pos, table, earlier);
        BestLength(data, earlier, pos, p, best.1);
        SkipsIs(data, pos, table, earlier, best.1);
        FormIs(data, pos, p, best.1);
      } else {
        NothingFound(data, pos, table, earlier);
      }
    } else {
      TooLate(data, earlier, pos);
    }
  }

  lemma BestLength(data: seq<byte>, earlier: set<nat>, p: nat, q: nat, n: nat)
    requires p <= |data| && IsBest(data, earlier, p, q, n)
    ensures n >= 3
  {
  }

  lemma TooLate(data: seq<byte>, earlier: set<nat>, p: nat)
    requires p <= |data| < p + 3
    ensures forall q :: !Considered(data, earlier, p, q)
  {
  }

  lemma NothingFound(data: seq<byte>, pos: nat, table: HashTable, earlier: set<nat>)
    requires pos + 3 <= |data| && TableOk(data, pos, table) && Recorded(data, table, earlier)
    requires forall q :: !Considered(data, earlier, pos, q)
    ensures Find(data, pos, table) == (0, 0)
  {
    hide Key, Considered;
    if Key(data, pos) in table {
      var cands, maxMatch, start := table[Key(data, pos)], MaxMatch(data, pos), WindowStart(data, pos);
      if Best(data, pos, maxMatch, start, cands) != (0, 0) {
        var j := BestIsAttained(data, pos, maxMatch, start, cands);
        assert cands[j] in cands;
        ConsideredIs(data, pos, table, earlier, cands[j]);
      }
    }
  }

  lemma {:induction false} RightFrom(data: seq<byte>, pos: nat, table: HashTable, earlier: set<nat>, k: nat)
    requires pos <= |data| && TableOk(data, pos, table) && Recorded(data, table, earlier) && k < |Items(data, pos, table)|
    ensures var items := Items(data, pos, table);
      && pos + Start(items, k) < |data|
      && IsRight(data, earlier + StartsBefore(items, pos, k), pos + Start(items, k), items[k])
    decreases k
  {
    hide Items, TableOk, Record, IsRight, NextItem, Recorded, Produces, Fits;
    MoreItems(data, pos, table);
    var item, next, table' := ItemsStep(data, pos, table);
    var items, rest := Items(data, pos, table), Items(data, next, table');
    assert items[1..] == rest && items[0] == item;
    if k == 0 {
      NextIsRight(data, pos, table, earlier);
      assert earlier + {} == earlier;
    } else {
      RecordedMore(data, pos, table, earlier);
      RightFrom(data, next, table', earlier + {pos}, k - 1);
      StartShift(items, k);
      ShiftedStarts(items, rest, pos, next, earlier, k);
    }
  }

  lemma {:induction false} ShiftedStarts(items: seq<Item>, rest: seq<Item>, pos: nat, next: nat, earlier: set<nat>, k: nat)
    requires items != [] && rest == items[1..] && next == pos + Span(items[0]) && 0 < k <= |items|
    ensures earlier + {pos} + StartsBefore(rest, next, k - 1) == earlier + StartsBefore(items, pos, k)
    decreases k
  {
    hide Span;
    if k == 1 {
      assert StartsBefore(items, pos, 1) == {} + {pos + Start(items, 0)};
    } else {
      ShiftedStarts(items, rest, pos, next, earlier, k - 1);
      StartShift(items, k - 1);
    }
  }

  /** Every item is the one that has to be written: it is chosen among the starts of the items before it. */
  lemma ChosenExactly(data: seq<byte>, k: nat)
    requires k < |Items(data, 0, map[])|
    ensures var items := Items(data, 0, map[]);
      Start(items, k) < |data| && IsRight(data, StartsBefore(items, 0, k), Start(items, k), items[k])
  {
    hide Items, IsRight, Recorded, TableOk;
    NothingRecorded(data);
    RightFrom(data, 0, map[], {}, k);
    assert {} + StartsBefore(Items(data, 0, map[]), 0, k) == StartsBefore(Items(data, 0, map[]), 0, k);
  }

  /** There is one best match, so the conditions determine the item. */
  lemma BestIsUnique(data: seq<byte>, earlier: set<nat>, p: nat, q: nat, n: nat, q': nat, n': nat)
    requires p <= |data| && IsBest(data, earlier, p, q, n) && IsBest(data, earlier, p, q', n')
    ensures q == q' && n == n'
  {
    hide Matches;
  }

  lemma RightIsUnique(data: seq<byte>, earlier: set<nat>, p: nat, a: Item, b: Item)
    requires p < |data| && IsRight(data, earlier, p, a) && IsRight(data, earlier, p, b)
    ensures a == b
  {
    hide Considered, IsBest, NextIsBetter;
    if exists q :: Considered(data, earlier, p, q) {
      var q: nat, n: nat :| IsBest(data, earlier, p, q, n) &&
        if NextIsBetter(data, earlier, p, n) then a.Literal? else IsFirstForm(a, p - q - n, n);
      var q': nat, n': nat :| IsBest(data, earlier, p, q', n') &&
        if NextIsBetter(data, earlier, p, n') then b.Literal? else IsFirstForm(b, p - q' - n', n');
      BestIsUnique(data, earlier, p, q, n, q', n');
    }
  }
}
