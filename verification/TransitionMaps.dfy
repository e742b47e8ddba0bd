/** The transition maps of Cython/Plex/Transitions.py: for every range of character codes, and for every special
    symbol, a set of states.  Ranges are split where they must be, and a split changes nothing for any code. */
module TransitionMaps {

  const MAXINT := 0x7FFF_FFFF

  datatype Symbol = Epsilon | Bol | Eol | Eof

  datatype Event = Range(low: int, high: int) | Special(symbol: Symbol)

  /** A single code, or a symbol. */
  datatype Point = Code(code: int) | Mark(symbol: Symbol)

  type States = set<nat>

  predicate IsPoint(p: Point) {
    p.Code? ==> -MAXINT <= p.code < MAXINT
  }

  predicate Covers(e: Event, p: Point) {
    match e
    case Range(low, high) => p.Code? && low <= p.code < high
    case Special(symbol) => p == Mark(symbol)
  }

  predicate Increasing(codes: seq<int>) {
    forall i, j :: 0 <= i < j < |codes| ==> codes[i] < codes[j]
  }

  /** The range that a code is in. */
  function Slot(codes: seq<int>, c: int): (i: nat)
    requires |codes| >= 2 && codes[0] <= c < codes[|codes| - 1]
    ensures i + 1 < |codes| && codes[i] <= c < codes[i + 1]
    decreases |codes|
  {
    var k := |codes| - 2;
    if codes[k] <= c then k else Slot(codes[..k + 1], c)
  }

  datatype Table = Table(codes: seq<int>, sets: seq<States>, special: map<Symbol, States>)
  {
    predicate Valid() {
      && |codes| == |sets| + 1 && sets != [] && Increasing(codes)
      && codes[0] == -MAXINT && codes[|sets|] == MAXINT
    }

    function Get(p: Point): States
      requires Valid() && IsPoint(p)
    {
      match p
      case Code(c) => sets[Slot(codes, c)]
      case Mark(symbol) => if symbol in special then special[symbol] else {}
    }

    /** The codes below all split points and those above have the same transitions. */
    predicate SameEnds()
      requires Valid()
    {
      sets[0] == sets[|sets| - 1]
    }
  }

  lemma SlotIs(codes: seq<int>, c: int, i: nat)
    requires Increasing(codes) && i + 1 < |codes| && codes[i] <= c < codes[i + 1]
    ensures codes[0] <= c < codes[|codes| - 1] && Slot(codes, c) == i
  {
    Higher(codes, 0, i);
    Higher(codes, i + 1, |codes| - 1);
    var k := Slot(codes, c);
    Higher(codes, k + 1, i);
    Higher(codes, i + 1, k);
  }

  lemma Higher(codes: seq<int>, i: nat, j: nat)
    requires Increasing(codes) && i < |codes| && j < |codes|
    ensures i < j ==> codes[i] < codes[j]
  {
  }

  function SplitAt(t: Table, hi: nat, code: int): Table
    requires t.Valid() && 0 < hi <= |t.sets|
  {
    Table(t.codes[..hi] + [code] + t.codes[hi..], t.sets[..hi] + [t.sets[hi - 1]] + t.sets[hi..], t.special)
  }

  lemma EndsGet(t: Table)
    requires t.Valid()
    ensures t.Get(Code(-MAXINT)) == t.sets[0] && t.Get(Code(MAXINT - 1)) == t.sets[|t.sets| - 1]
  {
    Higher(t.codes, 0, 1);
    Higher(t.codes, |t.sets| - 1, |t.sets|);
    SlotIs(t.codes, -MAXINT, 0);
    SlotIs(t.codes, MAXINT - 1, |t.sets| - 1);
  }

  /** Transitions on ranges between the ends, or on both ends, keep these the same. */
  lemma EndsStaySame(t: Table, u: Table, states: States, events: seq<Event>)
    requires t.Valid() && u.Valid() && t.SameEnds()
    requires forall p :: IsPoint(p) ==>
               u.Get(p) == t.Get(p) + if exists e :: e in events && Covers(e, p) then states else {}
    requires (exists e :: e in events && Covers(e, Code(-MAXINT))) <==> (exists e :: e in events && Covers(e, Code(MAXINT - 1)))
    ensures u.SameEnds()
  {
    EndsGet(t);
    EndsGet(u);
  }

  /** Splitting a range in two equal ones changes nothing. */
  lemma SplitKeeps(t: Table, hi: nat, code: int)
    requires t.Valid() && 0 < hi <= |t.sets| && t.codes[hi - 1] < code < t.codes[hi]
    ensures var u := SplitAt(t, hi, code);
            u.Valid() && u.codes[hi] == code && forall p :: IsPoint(p) ==> u.Get(p) == t.Get(p)
  {
    hide Increasing, Slot;
    var u := SplitAt(t, hi, code);
    SplitIncreasing(t.codes, hi, code);
    forall p | IsPoint(p)
      ensures u.Get(p) == t.Get(p)
    {
      if p.Code? {
        SplitSlot(t, hi, code, p.code);
      }
    }
  }

  lemma SplitSlot(t: Table, hi: nat, code: int, c: int)
    requires t.Valid() && 0 < hi <= |t.sets| && t.codes[hi - 1] < code < t.codes[hi] && -MAXINT <= c < MAXINT
    requires SplitAt(t, hi, code).Valid()
    ensures var u := SplitAt(t, hi, code); u.sets[Slot(u.codes, c)] == t.sets[Slot(t.codes, c)]
  {
    hide Increasing, Slot;
    var u, k := SplitAt(t, hi, code), Slot(t.codes, c);
    SlotIs(u.codes, c, if k < hi - 1 || (k == hi - 1 && c < code) then k else k + 1);
  }

  lemma SplitIncreasing(codes: seq<int>, hi: nat, code: int)
    requires Increasing(codes) && 0 < hi < |codes| && codes[hi - 1] < code < codes[hi]
    ensures Increasing(codes[..hi] + [code] + codes[hi..])
  {
    var more := codes[..hi] + [code] + codes[hi..];
    forall i, j | 0 <= i < j < |more|
      ensures more[i] < more[j]
    {
      assert i < hi ==> more[i] == codes[i] <= codes[hi - 1];
      assert j > hi ==> more[j] == codes[j - 1] >= codes[hi];
      assert i > hi ==> more[i] == codes[i - 1];
      assert j < hi ==> more[j] == codes[j];
    }
  }

  /** States added to the ranges from i to j. */
  function Widened(sets: seq<States>, i: nat, j: nat, states: States): (r: seq<States>)
    ensures |r| == |sets| && forall k :: 0 <= k < |sets| ==> r[k] == if i <= k < j then sets[k] + states else sets[k]
  {
    seq(|sets|, k requires 0 <= k < |sets| => if i <= k < j then sets[k] + states else sets[k])
  }

  lemma WidenedGet(t: Table, i: nat, j: nat, states: States)
    requires t.Valid() && i < |t.codes| && j < |t.codes|
    ensures var u := Table(t.codes, Widened(t.sets, i, j, states), t.special);
            u.Valid() && forall p :: IsPoint(p) ==>
              u.Get(p) == t.Get(p) + if Covers(Range(t.codes[i], t.codes[j]), p) then states else {}
  {
    var u := Table(t.codes, Widened(t.sets, i, j, states), t.special);
    forall p | IsPoint(p)
      ensures u.Get(p) == t.Get(p) + if Covers(Range(t.codes[i], t.codes[j]), p) then states else {}
    {
      if p.Code? {
        var k := Slot(t.codes, p.code);
        assert i <= k <==> t.codes[i] <= p.code by { Order(t.codes, i, k, p.code); }
        assert k < j <==> p.code < t.codes[j] by { Order(t.codes, j, k, p.code); }
      }
    }
  }

  lemma Order(codes: seq<int>, i: nat, k: nat, c: int)
    requires Increasing(codes) && i < |codes| && k + 1 < |codes| && codes[k] <= c < codes[k + 1]
    ensures i <= k <==> codes[i] <= c
  {
    if i < k {
      assert codes[i] < codes[k];
    } else if i > k + 1 {
      assert codes[k + 1] < codes[i];
    }
  }

  /** A split point stays where it is when one above it is made. */
  lemma StaysAt(before: seq<int>, codes: seq<int>, i: nat, j: nat, low: int, high: int)
    requires Increasing(before) && Increasing(codes) && i < |before| && before[i] == low && low <= high
    requires j < |codes| && codes[j] == high
    requires codes == before || (0 < j <= |before| && codes == before[..j] + [high] + before[j..])
    ensures i < |codes| && codes[i] == low
  {
    if codes != before {
      var k := if j <= i then i + 1 else i;
      assert codes[k] == before[i];
      Higher(codes, j, k);
    }
  }

  type Item = (Event, States)

  /** The first k ranges with their states; ranges without any are listed only if others have some on all codes that
      are not mentioned. */
  function RangeItems(t: Table, k: nat): seq<Item>
    requires t.Valid() && k <= |t.sets|
  {
    if k == 0 then []
    else
      RangeItems(t, k - 1) +
      if t.sets[k - 1] != {} || t.sets[0] != {} then [(Range(t.codes[k - 1], t.codes[k]), t.sets[k - 1])] else []
  }

  function SymbolItem(t: Table, symbol: Symbol): seq<Item>
    requires t.Valid()
  {
    var states := t.Get(Mark(symbol));
    if states != {} then [(Special(symbol), states)] else []
  }

  function ItemsOf(t: Table): seq<Item>
    requires t.Valid()
  {
    RangeItems(t, |t.sets|) + SymbolItem(t, Epsilon) + SymbolItem(t, Bol) + SymbolItem(t, Eol) + SymbolItem(t, Eof)
  }

  /** Every item gives the states of what its event covers. */
  lemma {:induction false} RangeItemIs(t: Table, k: nat, item: Item)
    requires t.Valid() && k <= |t.sets| && item in RangeItems(t, k)
    ensures exists i :: 0 <= i < k && item == (Range(t.codes[i], t.codes[i + 1]), t.sets[i])
  {
    var i := k - 1;
    if item != (Range(t.codes[i], t.codes[i + 1]), t.sets[i]) {
      RangeItemIs(t, k - 1, item);
    }
  }

  lemma ItemIs(t: Table, item: Item)
    requires t.Valid() && item in ItemsOf(t)
    ensures match item.0
            case Range(low, high) =>
              (exists i :: 0 <= i < |t.sets| && low == t.codes[i] && high == t.codes[i + 1] && item.1 == t.sets[i])
            case Special(symbol) => item.1 == t.Get(Mark(symbol))
  {
    hide RangeItems;
    InParts(t, item);
    if item in RangeItems(t, |t.sets|) {
      RangeItemIs(t, |t.sets|, item);
    }
  }

  lemma ItemGives(t: Table, item: Item, p: Point)
    requires t.Valid() && item in ItemsOf(t) && IsPoint(p) && Covers(item.0, p)
    ensures item.1 == t.Get(p)
  {
    ItemIs(t, item);
    if p.Code? {
      var i :| 0 <= i < |t.sets| && item.0.low == t.codes[i] && item.0.high == t.codes[i + 1] && item.1 == t.sets[i];
      SlotIs(t.codes, p.code, i);
    }
  }

  lemma {:induction false} RangeListed(t: Table, k: nat, i: nat)
    requires t.Valid() && i < k <= |t.sets| && (t.sets[i] != {} || t.sets[0] != {})
    ensures (Range(t.codes[i], t.codes[i + 1]), t.sets[i]) in RangeItems(t, k)
    decreases k
  {
    if i < k - 1 {
      RangeListed(t, k - 1, i);
    }
  }

  /** Nothing is left out. */
  lemma ItemListed(t: Table, p: Point) returns (item: Item)
    requires t.Valid() && IsPoint(p) && (t.Get(p) != {} || (p.Code? && t.sets[0] != {}))
    ensures item in ItemsOf(t) && Covers(item.0, p)
    ensures p.Code? ==> var i := Slot(t.codes, p.code); item.0 == Range(t.codes[i], t.codes[i + 1])
  {
    match p
    case Code(c) =>
      var i := Slot(t.codes, c);
      RangeListed(t, |t.sets|, i);
      item := (Range(t.codes[i], t.codes[i + 1]), t.sets[i]);
      InParts(t, item);
    case Mark(symbol) =>
      item := (Special(symbol), t.Get(p));
      assert item in SymbolItem(t, symbol) by { assert item in [item]; }
      assert symbol == Epsilon || symbol == Bol || symbol == Eol || symbol == Eof;
      InParts(t, item);
  }

  lemma InParts(t: Table, item: Item)
    requires t.Valid()
    ensures item in ItemsOf(t) <==>
            || item in RangeItems(t, |t.sets|) || item in SymbolItem(t, Epsilon) || item in SymbolItem(t, Bol)
            || item in SymbolItem(t, Eol) || item in SymbolItem(t, Eof)
  {
    hide RangeItems, SymbolItem;
    var a, b, c, d, e := RangeItems(t, |t.sets|), SymbolItem(t, Epsilon), SymbolItem(t, Bol), SymbolItem(t, Eol),
      SymbolItem(t, Eof);
    InSum(a + b + c + d, e, item);
    InSum(a + b + c, d, item);
    InSum(a + b, c, item);
    InSum(a, b, item);
  }

  lemma InSum<T>(a: seq<T>, b: seq<T>, x: T)
    ensures x in a + b <==> x in a || x in b
  {
  }

  class TransitionMap {
    var codes: seq<int>
    var sets: seq<States>
    var special: map<Symbol, States>

    function Now(): Table
      reads this
    {
      Table(codes, sets, special)
    }

    constructor ()
      ensures Now() == Table([-MAXINT, MAXINT], [{}], map[])
    {
      codes, sets, special := [-MAXINT, MAXINT], [{}], map[];
    }

    /** Finds the split point at `code` by bisection, or makes one. */
    method Split(code: int) returns (i: nat)
      requires Now().Valid() && -MAXINT <= code <= MAXINT
      modifies this`codes, this`sets
      ensures Now().Valid() && i < |codes| && codes[i] == code
      ensures forall p :: IsPoint(p) ==> Now().Get(p) == old(Now()).Get(p)
      ensures codes == old(codes) || (0 < i <= |old(codes)| && codes == old(codes)[..i] + [code] + old(codes)[i..])
    {
      var hi := |sets|;
      if code == MAXINT {
        return hi;
      }
      var lo := 0;
      while hi - lo >= 2
        invariant 0 <= lo < hi <= |sets| && codes[lo] <= code < codes[hi]
      {
        var mid := (lo + hi) / 2;
        if code < codes[mid] {
          hi := mid;
        } else {
          lo := mid;
        }
      }
      if codes[lo] == code {
        return lo;
      }
      SplitKeeps(Now(), hi, code);
      codes, sets := codes[..hi] + [code] + codes[hi..], sets[..hi] + [sets[hi - 1]] + sets[hi..];
      return hi;
    }

    method AddRange(low: int, high: int, states: States)
      requires Now().Valid() && -MAXINT <= low <= high <= MAXINT
      modifies this`codes, this`sets
      ensures Now().Valid()
      ensures forall p :: IsPoint(p) ==>
                Now().Get(p) == old(Now()).Get(p) + if Covers(Range(low, high), p) then states else {}
      ensures forall c :: c in codes ==> c in old(codes) || c == low || c == high
    {
      hide Increasing, Table.Get;
      var i := Split(low);
      ghost var before := codes;
      var j := Split(high);
      StaysAt(before, codes, i, j, low, high);
      WidenedGet(Now(), i, j, states);
      WidenSets(i, j, states);
    }

    method WidenSets(first: nat, last: nat, states: States)
      requires last <= |sets|
      modifies this`sets
      ensures sets == Widened(old(sets), first, last, states)
    {
      var i := first;
      while i < last
        invariant first <= i && (i <= last || i == first)
        invariant sets == Widened(old(sets), first, i, states)
      {
        sets := sets[i := sets[i] + states];
        i := i + 1;
      }
      assert sets == Widened(old(sets), first, last, states);
    }

    /** Adds transitions on all that the event covers, and on nothing else. */
    method AddSet(event: Event, states: States)
      requires Now().Valid() && (event.Range? ==> -MAXINT <= event.low <= event.high <= MAXINT)
      modifies this
      ensures Now().Valid()
      ensures forall p :: IsPoint(p) ==> Now().Get(p) == old(Now()).Get(p) + if Covers(event, p) then states else {}
      ensures forall c :: c in codes ==> c in old(codes) || (event.Range? && (c == event.low || c == event.high))
    {
      match event {
        case Range(low, high) => AddRange(low, high, states);
        case Special(symbol) =>
          special := special[symbol := (if symbol in special then special[symbol] else {}) + states];
      }
    }

    method RangesOf() returns (items: seq<Item>)
      requires Now().Valid()
      ensures items == RangeItems(Now(), |sets|)
    {
      items := [];
      var elseSet := sets[0] != {};
      for i := 0 to |sets|
        invariant items == RangeItems(Now(), i)
      {
        if sets[i] != {} || elseSet {
          items := items + [(Range(codes[i], codes[i + 1]), sets[i])];
        }
      }
    }

    method Items() returns (items: seq<Item>)
      requires Now().Valid()
      ensures items == ItemsOf(Now())
    {
      hide RangeItems;
      items := RangesOf();
      var symbols := [Epsilon, Bol, Eol, Eof];
      for k := 0 to 4
        invariant items + (if k < 1 then SymbolItem(Now(), Epsilon) else []) + (if k < 2 then SymbolItem(Now(), Bol) else [])
                  + (if k < 3 then SymbolItem(Now(), Eol) else []) + (if k < 4 then SymbolItem(Now(), Eof) else [])
               == ItemsOf(Now())
      {
        if symbols[k] in special && special[symbols[k]] != {} {
          items := items + [(Special(symbols[k]), special[symbols[k]])];
        }
      }
    }
  }
}
