/** The match search of the LZSS-like compressor in Cython/LZSS.py: the longest match among the stored
    positions inside the window, given up when the next position has a much better one. */
module LzssSearch {

  type byte = x: int | 0 <= x < 0x100

  function Min(a: int, b: int): int { if a <= b then a else b }

  function Max(a: int, b: int): int { if a >= b then a else b }

  // ----- Match search -----

  const WINDOW_SIZE := 0x4000

  type HashTable = map<seq<byte>, seq<nat>>

  /** The slice `data[pos:pos+3]`, which Python clips at the end. */
  function Key(data: seq<byte>, pos: nat): seq<byte>
    requires pos <= |data|
  {
    data[pos..Min(pos + 3, |data|)]
  }

  /** How far the match of `q` with `p` extends from length `len` when it may not exceed `lim`. */
  function Extend(data: seq<byte>, q: nat, p: nat, len: nat, lim: int): (r: nat)
    requires q < p && p + lim <= |data|
    ensures r >= len
    ensures lim >= len ==> r <= lim
    decreases lim - len
  {
    if len < lim && data[q + len] == data[p + len] then Extend(data, q, p, len + 1, lim) else len
  }

  /** The length of the match with the earlier position `q`; it may not reach into `pos` itself. */
  function MatchLen(data: seq<byte>, pos: nat, maxMatch: nat, q: nat): (r: nat)
    requires q < pos && pos + maxMatch <= |data|
    ensures r >= 3
  {
    Extend(data, q, pos, 3, Min(maxMatch, pos - q))
  }

  /** The best (offset, length) among stored positions: the first of the longest ones. */
  function Best(data: seq<byte>, pos: nat, maxMatch: nat, windowStart: nat, cands: seq<nat>): (nat, nat)
    requires pos + maxMatch <= |data|
  {
    if cands == [] then (0, 0) else
    var k := |cands| - 1;
    var best := Best(data, pos, maxMatch, windowStart, cands[..k]);
    var q := cands[k];
    if q < windowStart || q >= pos then best else
    var len := MatchLen(data, pos, maxMatch, q);
    if len > best.1 then (pos - q, len) else best
  }

  /** The longest match the look-ahead at `pos + 1` finds. */
  function NextBest(data: seq<byte>, pos: nat, maxMatch: nat, windowStart: nat, cands: seq<nat>): nat
    requires pos + 1 <= |data|
  {
    if cands == [] then 0 else
    var k := |cands| - 1;
    var best := NextBest(data, pos, maxMatch, windowStart, cands[..k]);
    var q := cands[k];
    if q < windowStart || q > pos then best else
    var len := Extend(data, q, pos + 1, 3, Min(Min(maxMatch, pos - q), |data| - pos - 1));
    if len > best then len else best
  }

  /** Lazy matching: the next position has a significantly better match. */
  predicate LazySkips(data: seq<byte>, pos: nat, table: HashTable, maxMatch: nat, bestLen: nat)
    requires pos < |data|
  {
    && 0 < bestLen < maxMatch
    && Key(data, pos + 1) in table
    && pos + bestLen + 1 < |data|
    && NextBest(data, pos, maxMatch, Max(0, pos + 1 - WINDOW_SIZE - maxMatch), table[Key(data, pos + 1)]) > bestLen + 1
  }

  function MaxMatch(data: seq<byte>, pos: nat): nat
    requires pos <= |data|
  {
    Min(255 + 3, |data| - pos)
  }

  function WindowStart(data: seq<byte>, pos: nat): nat
    requires pos <= |data|
  {
    Max(0, pos - WINDOW_SIZE - MaxMatch(data, pos))
  }

  function Find(data: seq<byte>, pos: nat, table: HashTable): (nat, nat)
    requires pos < |data|
  {
    if pos + 3 > |data| || Key(data, pos) !in table then (0, 0) else
    var maxMatch := MaxMatch(data, pos);
    var best := Best(data, pos, maxMatch, WindowStart(data, pos), table[Key(data, pos)]);
    if LazySkips(data, pos, table, maxMatch, best.1) then (0, 0) else best
  }

  /** Every stored position is earlier than `pos` and really starts with its key, and later ones come later. */
  ghost predicate TableOk(data: seq<byte>, pos: nat, table: HashTable) {
    && (forall key, j :: key in table && 0 <= j < |table[key]| ==>
          table[key][j] < pos && table[key][j] <= |data| && Key(data, table[key][j]) == key)
    && (forall key, i, j :: key in table && 0 <= i < j < |table[key]| ==> table[key][i] < table[key][j])
  }

  function Record(data: seq<byte>, pos: nat, table: HashTable): HashTable
    requires pos <= |data|
  {
    var key := Key(data, pos);
    table[key := (if key in table then table[key] else []) + [pos]]
  }

  lemma RecordOk(data: seq<byte>, pos: nat, table: HashTable, next: nat)
    requires pos <= |data| && pos < next && TableOk(data, pos, table)
    ensures TableOk(data, next, Record(data, pos, table))
  {
    var t := Record(data, pos, table);
    forall key, j | key in t && 0 <= j < |t[key]|
      ensures t[key][j] < next && t[key][j] <= |data| && Key(data, t[key][j]) == key
    {
      if key == Key(data, pos) {
        if key in table && j < |table[key]| {
          assert t[key][j] == table[key][j];
        }
      }
    }
  }

  /** A match copies bytes that were already there. */
  ghost predicate Copies(data: seq<byte>, pos: nat, offset: nat, length: nat) {
    && offset <= pos
    && pos + length <= |data|
    && data[pos - offset..pos - offset + length] == data[pos..pos + length]
  }

  lemma {:induction false} ExtendAgrees(data: seq<byte>, q: nat, p: nat, len: nat, lim: int, i: nat)
    requires q < p && p + lim <= |data|
    requires len <= i < Extend(data, q, p, len, lim)
    ensures i < lim && data[q + i] == data[p + i]
    decreases lim - len
  {
    if len < i {
      ExtendAgrees(data, q, p, len + 1, lim, i);
    }
  }

  /** What the search promises about one candidate. */
  lemma ExtendCopies(data: seq<byte>, q: nat, p: nat, lim: int)
    requires q < p && 3 <= p + 3 <= |data| && p + lim <= |data|
    requires Key(data, q) == Key(data, p)
    ensures Copies(data, p, p - q, Extend(data, q, p, 3, lim))
  {
    var len := Extend(data, q, p, 3, lim);
    forall i | 0 <= i < len
      ensures p + i < |data| && data[q..][i] == data[p..][i]
    {
      if i < 3 {
        assert Key(data, q)[i] == data[q + i] && Key(data, p)[i] == data[p + i];
      } else {
        ExtendAgrees(data, q, p, 3, lim, i);
      }
    }
    assert p + len <= |data| by {
      assert p + (len - 1) < |data|;
    }
    assert data[q..][..len] == data[p..][..len];
    assert data[q..q + len] == data[q..][..len];
    assert data[p..p + len] == data[p..][..len];
  }

  /** The search returns a true copy of at most the maximal length, or nothing. */
  lemma {:induction false} BestCopies(data: seq<byte>, pos: nat, windowStart: nat, cands: seq<nat>)
    requires pos + 3 <= |data|
    requires forall j :: 0 <= j < |cands| ==> cands[j] < pos && Key(data, cands[j]) == Key(data, pos)
    ensures var (offset, length) := Best(data, pos, MaxMatch(data, pos), windowStart, cands);
      || (offset == 0 && length == 0)
      || (1 <= offset && 3 <= length <= MaxMatch(data, pos) && Copies(data, pos, offset, length))
  {
    if cands != [] {
      var k := |cands| - 1;
      BestCopies(data, pos, windowStart, cands[..k]);
      ExtendCopies(data, cands[k], pos, Min(MaxMatch(data, pos), pos - cands[k]));
    }
  }

  /** The result is at least as long as the match of every candidate inside the window. */
  lemma {:induction false} BestIsLongest(data: seq<byte>, pos: nat, maxMatch: nat, windowStart: nat,
                                         cands: seq<nat>, j: nat)
    requires pos + maxMatch <= |data| && j < |cands| && windowStart <= cands[j] < pos
    ensures Best(data, pos, maxMatch, windowStart, cands).1 >= MatchLen(data, pos, maxMatch, cands[j])
    decreases |cands|
  {
    var k := |cands| - 1;
    if j < k {
      BestIsLongest(data, pos, maxMatch, windowStart, cands[..k], j);
    }
  }

  /** A non-zero result is the match of the first candidate inside the window that reaches this length. */
  lemma {:induction false} BestIsAttained(data: seq<byte>, pos: nat, maxMatch: nat, windowStart: nat, cands: seq<nat>)
    returns (j: nat)
    requires pos + maxMatch <= |data|
    requires Best(data, pos, maxMatch, windowStart, cands) != (0, 0)
    ensures j < |cands| && windowStart <= cands[j] < pos
    ensures Best(data, pos, maxMatch, windowStart, cands) == (pos - cands[j], MatchLen(data, pos, maxMatch, cands[j]))
    ensures forall i :: 0 <= i < j && windowStart <= cands[i] < pos ==>
      MatchLen(data, pos, maxMatch, cands[i]) < MatchLen(data, pos, maxMatch, cands[j])
  {
    var k := |cands| - 1;
    var best := Best(data, pos, maxMatch, windowStart, cands[..k]);
    if Best(data, pos, maxMatch, windowStart, cands) == best {
      j := BestIsAttained(data, pos, maxMatch, windowStart, cands[..k]);
    } else {
      j := k;
      forall i | 0 <= i < j && windowStart <= cands[i] < pos
        ensures MatchLen(data, pos, maxMatch, cands[i]) < MatchLen(data, pos, maxMatch, cands[j])
      {
        BestIsLongest(data, pos, maxMatch, windowStart, cands[..k], i);
      }
    }
  }

  predicate InWindow(data: seq<byte>, pos: nat, q: nat)
    requires pos <= |data|
  {
    WindowStart(data, pos) <= q < pos
  }

  /** The search as a whole: what it returns is the length of a longest match among the stored positions
      in the window, and it returns nothing exactly when there is none or the look-ahead finds better. */
  lemma FindIsLongest(data: seq<byte>, pos: nat, table: HashTable)
    requires pos < |data| && TableOk(data, pos, table)
    ensures var key, maxMatch := Key(data, pos), MaxMatch(data, pos);
      var (offset, length) := Find(data, pos, table);
      && (length > 0 ==>
            && key in table
            && (forall q :: q in table[key] && InWindow(data, pos, q) ==> MatchLen(data, pos, maxMatch, q) <= length)
            && (exists q :: q in table[key] && InWindow(data, pos, q) && offset == pos - q
                            && length == MatchLen(data, pos, maxMatch, q)))
      && (length == 0 && pos + 3 <= |data| && key in table ==>
            || (forall q :: q in table[key] ==> !InWindow(data, pos, q))
            || (exists q :: q in table[key] && InWindow(data, pos, q)
                            && LazySkips(data, pos, table, maxMatch, MatchLen(data, pos, maxMatch, q))))
  {
    var key, maxMatch, start := Key(data, pos), MaxMatch(data, pos), WindowStart(data, pos);
    if pos + 3 <= |data| && key in table {
      var cands := table[key];
      var best := Best(data, pos, maxMatch, start, cands);
      forall q | q in cands && InWindow(data, pos, q)
        ensures MatchLen(data, pos, maxMatch, q) <= best.1
      {
        var j :| 0 <= j < |cands| && cands[j] == q;
        BestIsLongest(data, pos, maxMatch, start, cands, j);
      }
      if best != (0, 0) {
        var j := BestIsAttained(data, pos, maxMatch, start, cands);
        assert cands[j] in cands && InWindow(data, pos, cands[j]);
      }
    }
  }

  /** The stored positions in the window whose match is as long as the result. */
  ghost predicate Ties(data: seq<byte>, pos: nat, table: HashTable, q: nat)
    requires pos < |data|
  {
    && Key(data, pos) in table && q in table[Key(data, pos)] && InWindow(data, pos, q)
    && MatchLen(data, pos, MaxMatch(data, pos), q) == Find(data, pos, table).1
  }

  /** Among equally long matches the search takes the farthest one.  So the closest one is what it returns if and
      only if there is no other. */
  lemma TieKeepsFarthest(data: seq<byte>, pos: nat, table: HashTable)
    requires pos < |data| && TableOk(data, pos, table) && Find(data, pos, table).1 > 0
    ensures var offset := Find(data, pos, table).0;
      && offset <= pos && Ties(data, pos, table, pos - offset)
      && (forall q :: Ties(data, pos, table, q) ==> pos - q <= offset)
      && ((forall q :: Ties(data, pos, table, q) ==> pos - q >= offset) <==>
          (forall q :: Ties(data, pos, table, q) ==> q == pos - offset))
  {
    hide LazySkips, Extend;
    var cands, maxMatch, start := table[Key(data, pos)], MaxMatch(data, pos), WindowStart(data, pos);
    var j := BestIsAttained(data, pos, maxMatch, start, cands);
    assert cands[j] in cands && InWindow(data, pos, cands[j]);
    forall q | Ties(data, pos, table, q)
      ensures q >= cands[j]
    {
      var i :| 0 <= i < |cands| && cands[i] == q;
    }
  }

  /** A match length is a true maximum: it stops at the limit or at a difference. */
  lemma {:induction false} ExtendIsMaximal(data: seq<byte>, q: nat, p: nat, len: nat, lim: int)
    requires q < p && p + lim <= |data|
    ensures var r := Extend(data, q, p, len, lim);
      r >= lim || data[q + r] != data[p + r]
    decreases lim - len
  {
    if len < lim && data[q + len] == data[p + len] {
      ExtendIsMaximal(data, q, p, len + 1, lim);
    }
  }

  /** What the encoder gets from the search. */
  ghost predicate Usable(data: seq<byte>, pos: nat, found: (nat, nat)) {
    found == (0, 0) || (1 <= found.0 && 3 <= found.1 <= 258 && Copies(data, pos, found.0, found.1))
  }

  lemma FindIsUsable(data: seq<byte>, pos: nat, table: HashTable)
    requires pos < |data| && TableOk(data, pos, table)
    ensures Usable(data, pos, Find(data, pos, table))
  {
    if pos + 3 <= |data| && Key(data, pos) in table {
      BestCopies(data, pos, WindowStart(data, pos), table[Key(data, pos)]);
    }
  }

  method ExtendMatch(data: seq<byte>, q: nat, p: nat, lim: int) returns (matchLen: nat)
    requires q < p && p + lim <= |data|
    ensures matchLen == Extend(data, q, p, 3, lim)
  {
    matchLen := 3;
    while matchLen < lim && data[q + matchLen] == data[p + matchLen]
      invariant Extend(data, q, p, 3, lim) == Extend(data, q, p, matchLen, lim)
      decreases lim - matchLen
    {
      matchLen := matchLen + 1;
    }
  }

  /** The first scan: all positions that start with the same three bytes. */
  method ScanCandidates(data: seq<byte>, pos: nat, maxMatch: nat, windowStart: nat, cands: seq<nat>)
    returns (bestOffset: nat, bestLen: nat)
    requires pos + maxMatch <= |data|
    ensures (bestOffset, bestLen) == Best(data, pos, maxMatch, windowStart, cands)
  {
    bestLen, bestOffset := 0, 0;
    for i := 0 to |cands|
      invariant (bestOffset, bestLen) == Best(data, pos, maxMatch, windowStart, cands[..i])
    {
      var prevPos := cands[i];
      assert cands[..i + 1][..i] == cands[..i];
      if prevPos < windowStart || prevPos >= pos {
        continue;
      }
      var matchLen := ExtendMatch(data, prevPos, pos, Min(maxMatch, pos - prevPos));
      if matchLen > bestLen {
        bestLen, bestOffset := matchLen, pos - prevPos;
      }
    }
    assert cands[..|cands|] == cands;
  }

  /** The look-ahead scan for the position after `pos`. */
  method ScanNext(data: seq<byte>, pos: nat, maxMatch: nat, windowStart: nat, cands: seq<nat>)
    returns (nextBestLen: nat)
    requires pos + 1 <= |data|
    requires forall j :: 0 <= j < |cands| ==> cands[j] < pos
    ensures nextBestLen == NextBest(data, pos, maxMatch, windowStart, cands)
  {
    nextBestLen := 0;
    for i := 0 to |cands|
      invariant nextBestLen == NextBest(data, pos, maxMatch, windowStart, cands[..i])
    {
      var prevPos := cands[i];
      assert cands[..i + 1][..i] == cands[..i];
      if prevPos < windowStart {
        continue;
      }
      var matchLen := ExtendMatch(data, prevPos, pos + 1, Min(Min(maxMatch, pos - prevPos), |data| - pos - 1));
      if matchLen > nextBestLen {
        nextBestLen := matchLen;
      }
    }
    assert cands[..|cands|] == cands;
  }

  method FindLongestMatch(data: seq<byte>, pos: nat, table: HashTable) returns (offset: nat, length: nat)
    requires pos < |data| && TableOk(data, pos, table)
    ensures (offset, length) == Find(data, pos, table)
  {
    if pos + 3 > |data| {
      return 0, 0;
    }
    var maxMatch := MaxMatch(data, pos);
    var windowStart := WindowStart(data, pos);
    var key := data[pos..pos + 3];
    if key !in table {
      return 0, 0;
    }
    offset, length := ScanCandidates(data, pos, maxMatch, windowStart, table[key]);
    var nextKey := Key(data, pos + 1);
    if 0 < length < maxMatch && nextKey in table && pos + length + 1 < |data| {
      windowStart := Max(0, pos + 1 - WINDOW_SIZE - maxMatch);
      var nextBestLen := ScanNext(data, pos, maxMatch, windowStart, table[nextKey]);
      if nextBestLen > length + 1 {
        offset, length := 0, 0;
      }
    }
  }

  /** In `abcdabceabcf`, the three letters at position 8 are also at 0 and at 4. */
  function TwiceBefore(): seq<byte> {
    [97, 98, 99, 100, 97, 98, 99, 101, 97, 98, 99, 102]
  }

  /** The search passes over the closer match at position 4. */
  lemma CloserTieIsPassedOver(table: HashTable)
    requires table == map[[97, 98, 99] := [0, 4]]
    ensures TableOk(TwiceBefore(), 8, table)
    ensures Find(TwiceBefore(), 8, table) == (8, 3) && Ties(TwiceBefore(), 8, table, 4)
  {
    var data := TwiceBefore();
    assert Key(data, 0) == [97, 98, 99] && Key(data, 4) == [97, 98, 99] && Key(data, 8) == [97, 98, 99];
    assert Key(data, 9) == [98, 99, 102];
    assert Extend(data, 0, 8, 3, 4) == 3 && Extend(data, 4, 8, 3, 4) == 3;
    assert MatchLen(data, 8, 4, 0) == 3 && MatchLen(data, 8, 4, 4) == 3;
    assert [0, 4][..1] == [0] && [0][..0] == [];
    assert Best(data, 8, 4, 0, [0]) == (8, 3);
    assert Best(data, 8, 4, 0, [0, 4]) == (8, 3);
  }
}
