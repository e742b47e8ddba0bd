/** The location table of Cython/Compiler/LineTable.py: the three entry forms, their bytes, and a reader. */
module LineTable {
  import opened Bits

  datatype Option<+T> = None | Some(value: T)

  datatype Position = Position(start: int, end: int, startColumn: int, endColumn: int)

  datatype Form = Short | OneLine | Long

  // ----- The bytes of the table -----

  function Varint(v: nat): (s: seq<nat>)
    ensures s != []
  {
    if v < 64 then [v] else (ShrDivides(v, 6); Powers(); [Or(64, And(v, 63))] + Varint(Shr(v, 6)))
  }

  function FormOf(p: Position, last: int): Form {
    if p.end == p.start && p.start == last && p.startColumn < 80 && 0 <= p.endColumn - p.startColumn < 16 then Short
    else if p.end == p.start && 0 <= p.start - last < 3 && p.startColumn < 128 && p.endColumn < 128 then OneLine
    else Long
  }

  /** Entries come in order and no stored number is negative; column -1 can only be stored in the long form. */
  predicate Encodable(p: Position, last: int) {
    && last <= p.start <= p.end
    && p.startColumn >= -1 && p.endColumn >= -1
    && (FormOf(p, last).Long? || (p.startColumn >= 0 && p.endColumn >= 0))
  }

  function Entry(p: Position, last: int): (s: seq<nat>)
    requires Encodable(p, last)
    ensures s != []
  {
    match FormOf(p, last)
    case Short => [Or(128, Shl(Shr(p.startColumn, 3), 3)), Or(Shl(And(p.startColumn, 7), 4), p.endColumn - p.startColumn)]
    case OneLine => [Or(128, Shl(10 + (p.start - last), 3)), p.startColumn, p.endColumn]
    case Long => [Or(128, Shl(14, 3))] + Varint(Shl(p.start - last, 1)) + Varint(p.end - p.start) +
                 Varint(p.startColumn + 1) + Varint(p.endColumn + 1)
  }

  predicate AllEncodable(ps: seq<Position>, last: int) {
    ps != [] ==> Encodable(ps[0], last) && AllEncodable(ps[1..], ps[0].end)
  }

  function Table(ps: seq<Position>, last: int): seq<nat>
    requires AllEncodable(ps, last)
  {
    if ps == [] then [] else Entry(ps[0], last) + Table(ps[1..], ps[0].end)
  }

  /** No position ends before it begins, and none begins before an earlier one ends. */
  ghost predicate InOrder(ps: seq<Position>, first: int) {
    && (forall i :: 0 <= i < |ps| ==> first <= ps[i].start <= ps[i].end)
    && forall i, j :: 0 <= i < j < |ps| ==> ps[i].end <= ps[j].start
  }

  /** Positions with columns can be stored exactly if they are in order. */
  lemma {:induction false} EncodableInOrder(ps: seq<Position>, first: int)
    requires forall p <- ps :: p.startColumn >= 0 && p.endColumn >= 0
    ensures AllEncodable(ps, first) <==> InOrder(ps, first)
  {
    if ps != [] {
      var p, rest := ps[0], ps[1..];
      EncodableInOrder(rest, p.end);
      assert p in ps && ps == [p] + rest;
      if InOrder(rest, p.end) && first <= p.start <= p.end {
        assert forall i :: 0 < i < |ps| ==> ps[i] == rest[i - 1];
      }
      if InOrder(ps, first) {
        assert forall i :: 0 <= i < |rest| ==> rest[i] == ps[i + 1];
      }
    }
  }

  // ----- The encoder -----

  /** A failing assertion, or a negative character code, is None. */
  method BuildLineTable(positions: seq<Position>, firstlineno: int) returns (r: Option<seq<nat>>)
    ensures r.Some? <==> AllEncodable(positions, firstlineno)
    ensures r.Some? ==> r.value == Table(positions, firstlineno)
  {
    hide Entry, Encodable;
    var table, last := [], firstlineno;
    var i := 0;
    while i < |positions|
      invariant 0 <= i <= |positions|
      invariant AllEncodable(positions[i..], last) == AllEncodable(positions, firstlineno)
      invariant AllEncodable(positions, firstlineno) ==> table + Table(positions[i..], last) == Table(positions, firstlineno)
    {
      var entry := EncodeSinglePosition(table, positions[i], last);
      if entry.None? {
        return None;
      }
      assert positions[i..][0] == positions[i] && positions[i..][1..] == positions[i + 1..];
      if AllEncodable(positions, firstlineno) {
        Assoc(table, Entry(positions[i], last), Table(positions[i + 1..], positions[i].end));
      }
      table, last := entry.value.0, entry.value.1;
      i := i + 1;
    }
    return Some(table);
  }

  method EncodeSinglePosition(table: seq<nat>, p: Position, last: int) returns (r: Option<(seq<nat>, int)>)
    ensures r.Some? <==> Encodable(p, last)
    ensures r.Some? ==> r.value == (table + Entry(p, last), p.end)
  {
    hide Or, And, Shl, Shr, Varint;
    if p.start < last {
      return None;
    }
    var delta := p.start - last;
    if p.end == p.start {
      if delta == 0 && p.startColumn < 80 && 0 <= p.endColumn - p.startColumn < 16 {
        var t := EncodeLocationShort(table, p.startColumn, p.endColumn);
        return if t.Some? then Some((t.value, p.end)) else None;
      } else if 0 <= delta < 3 && p.startColumn < 128 && p.endColumn < 128 {
        var t := EncodeLocationOneline(table, delta, p.startColumn, p.endColumn);
        return if t.Some? then Some((t.value, p.end)) else None;
      }
    }
    if p.end < p.start || p.startColumn + 1 < 0 || p.endColumn + 1 < 0 {
      return None;
    }
    var t := EncodeLocationStart(table, 14);
    t := EncodeVarint(t, Shl(delta, 1));
    t := EncodeVarint(t, p.end - p.start);
    t := EncodeVarint(t, p.startColumn + 1);
    t := EncodeVarint(t, p.endColumn + 1);
    Regroup(table, [Or(128, Shl(14, 3))], Varint(Shl(delta, 1)), Varint(p.end - p.start), Varint(p.startColumn + 1),
            Varint(p.endColumn + 1));
    return Some((t, p.end));
  }

  lemma Assoc(a: seq<nat>, b: seq<nat>, c: seq<nat>)
    ensures a + (b + c) == a + b + c
  {
  }

  lemma Nested(a: seq<nat>, b: seq<nat>, c: seq<nat>, d: seq<nat>, e: seq<nat>)
    ensures a + b + c + d + e == a + (b + (c + (d + e)))
  {
  }

  lemma Regroup(t: seq<nat>, a: seq<nat>, b: seq<nat>, c: seq<nat>, d: seq<nat>, e: seq<nat>)
    ensures t + a + b + c + d + e == t + (a + b + c + d + e)
  {
  }

  method EncodeLocationStart(table: seq<nat>, code: nat) returns (t: seq<nat>)
    ensures t == table + [Or(128, Shl(code, 3))]
  {
    t := table + [Or(128, Shl(code, 3))];
  }

  method EncodeLocationShort(table: seq<nat>, startColumn: int, endColumn: int) returns (r: Option<seq<nat>>)
    requires startColumn <= endColumn
    ensures r.None? <==> startColumn < 0
    ensures r.Some? ==> r.value == table +
                                  [Or(128, Shl(Shr(startColumn, 3), 3)), Or(Shl(And(startColumn, 7), 4), endColumn - startColumn)]
  {
    if startColumn < 0 {
      return None;
    }
    var lowBits, code := And(startColumn, 7), Shr(startColumn, 3);
    return Some(table + [Or(128, Shl(code, 3)), Or(Shl(lowBits, 4), endColumn - startColumn)]);
  }

  method EncodeLocationOneline(table: seq<nat>, delta: nat, startColumn: int, endColumn: int) returns (r: Option<seq<nat>>)
    ensures r.None? <==> startColumn < 0 || endColumn < 0
    ensures r.Some? ==> r.value == table + [Or(128, Shl(10 + delta, 3)), startColumn, endColumn]
  {
    if startColumn < 0 || endColumn < 0 {
      return None;
    }
    var code := 10 + delta;
    return Some(table + [Or(128, Shl(code, 3)), startColumn, endColumn]);
  }

  method EncodeVarint(table: seq<nat>, value: nat) returns (t: seq<nat>)
    ensures t == table + Varint(value)
  {
    var v := value;
    t := table;
    while v >= 64
      invariant t + Varint(v) == table + Varint(value)
    {
      ShrDivides(v, 6);
      Powers();
      ghost var before := t;
      t := t + [Or(64, And(v, 63))];
      assert before + Varint(v) == t + Varint(Shr(v, 6));
      v := Shr(v, 6);
    }
    t := t + [v];
  }

  // ----- A reader of the table -----

  function ReadVarint(s: seq<nat>): (r: Option<(nat, nat)>)
    ensures r.Some? ==> 0 < r.value.1 <= |s|
  {
    if s == [] then None
    else if And(s[0], 64) == 0 then Some((And(s[0], 63), 1))
    else match ReadVarint(s[1..])
         case None => None
         case Some(rest) => Some((Or(And(s[0], 63), Shl(rest.0, 6)), 1 + rest.1))
  }

  /** Several numbers in a row, and the bytes they take. */
  function ReadVarints(s: seq<nat>, n: nat): (r: Option<(seq<nat>, nat)>)
    ensures r.Some? ==> |r.value.0| == n && r.value.1 <= |s|
    decreases n
  {
    if n == 0 then Some(([], 0))
    else match ReadVarint(s)
         case None => None
         case Some(v) =>
           match ReadVarints(s[v.1..], n - 1)
           case None => None
           case Some(rest) => Some(([v.0] + rest.0, v.1 + rest.1))
  }

  function Signed(u: nat): int {
    if u % 2 == 1 then -(Shr(u, 1) as int) else Shr(u, 1)
  }

  /** One entry: a byte with bit 7 set and the code in bits 3 to 6, then what the code asks for.
      Codes 13 and 15, for positions without columns, are not read. */
  function ReadEntry(s: seq<nat>, line: int): (r: Option<(Position, nat)>)
    ensures r.Some? ==> 0 < r.value.1 <= |s|
  {
    if s == [] || And(s[0], 128) == 0 then None
    else
      var code := And(Shr(s[0], 3), 15);
      if code < 10 then
        if |s| < 2 then None
        else
          var column := Or(Shl(code, 3), And(Shr(s[1], 4), 7));
          Some((Position(line, line, column, column + And(s[1], 15)), 2))
      else if code < 13 then
        if |s| < 3 then None
        else Some((Position(line + (code - 10), line + (code - 10), s[1], s[2]), 3))
      else if code == 14 then
        match ReadVarints(s[1..], 4)
        case None => None
        case Some(v) =>
          var start := line + Signed(v.0[0]);
          Some((Position(start, start + v.0[1], v.0[2] as int - 1, v.0[3] as int - 1), 1 + v.1))
      else None
  }

  /** Line deltas count from the end line of the previous entry, or from its start line. */
  datatype Base = FromEnd | FromStart

  function NextLine(p: Position, base: Base): int {
    match base
    case FromEnd => p.end
    case FromStart => p.start
  }

  function ReadTable(s: seq<nat>, line: int, base: Base): Option<seq<Position>> {
    if s == [] then Some([])
    else match ReadEntry(s, line)
         case None => None
         case Some(e) =>
           match ReadTable(s[e.1..], NextLine(e.0, base), base)
           case None => None
           case Some(rest) => Some([e.0] + rest)
  }

  function Moved(p: Position, lines: int): Position {
    p.(start := p.start + lines, end := p.end + lines)
  }

  /** Bit 7 tells the first byte of an entry from the others, and all of them are bytes. */
  predicate Marked(entry: seq<nat>) {
    && entry != []
    && (forall b <- entry :: b < 256)
    && forall i :: 0 <= i < |entry| ==> (And(entry[i], 128) != 0 <==> i == 0)
  }

  // ----- Entries are read back -----

  lemma ByteParts(b: nat)
    ensures And(b, 63) == b % 64 && And(b, 7) == b % 8 && And(b, 15) == b % 16
    ensures And(b, 64) == b / 64 % 2 * 64 && And(b, 128) == b / 128 % 2 * 128
    ensures Shr(b, 1) == b / 2 && Shr(b, 3) == b / 8 && Shr(b, 4) == b / 16 && Shr(b, 6) == b / 64
  {
    Powers();
    AndLowMask(b, 6); AndLowMask(b, 3); AndLowMask(b, 4);
    ShrDivides(b, 1); ShrDivides(b, 3); ShrDivides(b, 4); ShrDivides(b, 6); ShrDivides(b, 7);
    AndHighMask(b, 1, 6); AndHighMask(b, 1, 7);
    AndLowMask(b / 64, 1); AndLowMask(b / 128, 1);
  }

  lemma Glue(hi: nat, lo: nat)
    ensures lo < 64 ==> Or(64, lo) == 64 + lo && Or(lo, Shl(hi, 6)) == hi * 64 + lo
    ensures lo < 128 ==> Or(128, lo) == 128 + lo
    ensures lo < 16 ==> Or(Shl(hi, 4), lo) == hi * 16 + lo
    ensures lo < 8 ==> Or(Shl(hi, 3), lo) == hi * 8 + lo
    ensures Shl(hi, 3) == hi * 8 && Shl(hi, 1) == hi * 2
  {
    Powers();
    if lo < 64 { OrDisjoint(1, lo, 6); OrDisjoint(hi, lo, 6); }
    if lo < 128 { OrDisjoint(1, lo, 7); }
    if lo < 16 { OrDisjoint(hi, lo, 4); }
    if lo < 8 { OrDisjoint(hi, lo, 3); }
  }

  /** Continuation bytes have bit 6 set, the last one does not, and none has bit 7. */
  lemma {:induction false} VarintRead(v: nat, rest: seq<nat>)
    ensures ReadVarint(Varint(v) + rest) == Some((v, |Varint(v)|))
    ensures forall b <- Varint(v) :: b < 128
    decreases v
  {
    hide And, Or, Shr, Shl, ReadVarint, Varint;
    if v < 64 {
      VarintIs(v);
      assert ([v] + rest)[0] == v;
      ReadLast([v] + rest);
    } else {
      var lo, hi := v % 64, v / 64;
      VarintIs(v);
      VarintRead(hi, rest);
      assert Varint(v) + rest == [64 + lo] + (Varint(hi) + rest);
      ReadMore(lo, Varint(hi) + rest);
    }
  }

  lemma VarintIs(v: nat)
    ensures Varint(v) == if v < 64 then [v] else [64 + v % 64] + Varint(v / 64)
  {
    hide And, Or, Shr, Shl;
    ByteParts(v);
    Glue(0, v % 64);
  }

  lemma ReadLast(s: seq<nat>)
    requires s != [] && s[0] < 64
    ensures ReadVarint(s) == Some((s[0], 1))
  {
    hide And, Or, Shr, Shl;
    ByteParts(s[0]);
  }

  lemma ContinuedByte(lo: nat)
    requires lo < 64
    ensures And(64 + lo, 64) == 64 && And(64 + lo, 63) == lo
  {
    hide And;
    ByteParts(64 + lo);
  }

  lemma ReadMore(lo: nat, s: seq<nat>)
    requires lo < 64
    ensures ReadVarint([64 + lo] + s) ==
            match ReadVarint(s) case None => None case Some(r) => Some((r.0 * 64 + lo, 1 + r.1))
  {
    hide And, Or, Shr, Shl;
    ContinuedByte(lo);
    assert ([64 + lo] + s)[0] == 64 + lo && ([64 + lo] + s)[1..] == s;
    if ReadVarint(s).Some? {
      Glue(ReadVarint(s).value.0, lo);
    }
  }

  lemma {:induction false} VarintsRead(v: nat, n: nat, tail: seq<nat>, rest: (seq<nat>, nat))
    requires ReadVarints(tail, n) == Some(rest)
    ensures ReadVarints(Varint(v) + tail, n + 1) == Some(([v] + rest.0, |Varint(v)| + rest.1))
    ensures forall b <- Varint(v) :: b < 128
  {
    VarintRead(v, tail);
    assert (Varint(v) + tail)[|Varint(v)|..] == tail;
  }

  lemma NoVarints(s: seq<nat>)
    ensures ReadVarints(s, 0) == Some(([], 0))
  {
  }

  /** The four numbers of a long entry. */
  lemma FourVarints(a: nat, b: nat, c: nat, d: nat, rest: seq<nat>)
    ensures var bytes := Varint(a) + Varint(b) + Varint(c) + Varint(d);
            ReadVarints(bytes + rest, 4) == Some(([a, b, c, d], |bytes|)) && forall x <- bytes :: x < 128
  {
    hide Varint, ReadVarint, ReadVarints;
    NoVarints(rest);
    assert [d] + [] == [d] && [c] + [d] == [c, d] && [b] + [c, d] == [b, c, d] && [a] + [b, c, d] == [a, b, c, d];
    VarintsRead(d, 0, rest, ([], 0));
    var three := Varint(d) + rest;
    VarintsRead(c, 1, three, ([d], |Varint(d)|));
    var two := Varint(c) + three;
    VarintsRead(b, 2, two, ([c, d], |Varint(c)| + |Varint(d)|));
    var one := Varint(b) + two;
    VarintsRead(a, 3, one, ([b, c, d], |Varint(b)| + (|Varint(c)| + |Varint(d)|)));
    Nested(Varint(a), Varint(b), Varint(c), Varint(d), rest);
  }

  lemma ShortRead(p: Position, last: int, line: int, rest: seq<nat>)
    requires Encodable(p, last) && FormOf(p, last).Short?
    ensures ReadEntry(Entry(p, last) + rest, line) == Some((Moved(p, line - last), |Entry(p, last)|))
    ensures Marked(Entry(p, last))
  {
    hide And, Or, Shr, Shl, ReadVarints, Varint;
    var code, low, width: nat := p.startColumn / 8, p.startColumn % 8, p.endColumn - p.startColumn;
    var b0, b1 := 128 + code * 8, low * 16 + width;
    ShortBytes(p, last, code, low, width);
    ShortFields(code, low, width);
    Glue(code, low);
    assert (Entry(p, last) + rest)[0] == b0 && (Entry(p, last) + rest)[1] == b1;
  }

  lemma ShortBytes(p: Position, last: int, code: nat, low: nat, width: nat)
    requires Encodable(p, last) && FormOf(p, last).Short?
    requires p.startColumn == code * 8 + low && low < 8 && p.endColumn == p.startColumn + width
    ensures Entry(p, last) == [128 + code * 8, low * 16 + width]
  {
    hide And, Or, Shr, Shl, ReadVarints, Varint;
    ByteParts(p.startColumn);
    Glue(code, code * 8);
    Glue(low, width);
  }

  lemma ShortFields(code: nat, low: nat, width: nat)
    requires code < 10 && low < 8 && width < 16
    ensures var b0, b1 := 128 + code * 8, low * 16 + width;
            && And(Shr(b0, 3), 15) == code && And(Shr(b1, 4), 7) == low && And(b1, 15) == width
            && And(b0, 128) != 0 && And(b1, 128) == 0 && b0 < 256 && b1 < 256
  {
    hide And, Or, Shr, Shl;
    var b0, b1 := 128 + code * 8, low * 16 + width;
    ByteParts(b0);
    ByteParts(b1);
    ByteParts(b0 / 8);
    ByteParts(b1 / 16);
    assert b0 / 8 == 16 + code && b1 / 16 == low;
  }

  lemma OneLineRead(p: Position, last: int, line: int, rest: seq<nat>)
    requires Encodable(p, last) && FormOf(p, last).OneLine?
    ensures ReadEntry(Entry(p, last) + rest, line) == Some((Moved(p, line - last), |Entry(p, last)|))
    ensures Marked(Entry(p, last))
  {
    hide And, Or, Shr, Shl, ReadVarints, Varint;
    var code: nat := 10 + (p.start - last);
    Glue(code, code * 8);
    var b0 := 128 + code * 8;
    ByteParts(b0); ByteParts(b0 / 8); ByteParts(p.startColumn); ByteParts(p.endColumn);
    assert b0 / 8 == 16 + code;
    assert Entry(p, last) == [b0, p.startColumn, p.endColumn];
    assert (Entry(p, last) + rest)[0] == b0 && (Entry(p, last) + rest)[1] == p.startColumn;
  }

  lemma LongRead(p: Position, last: int, line: int, rest: seq<nat>)
    requires Encodable(p, last) && FormOf(p, last).Long?
    ensures ReadEntry(Entry(p, last) + rest, line) == Some((Moved(p, line - last), |Entry(p, last)|))
    ensures Marked(Entry(p, last))
  {
    hide And, Or, Shr, Shl, ReadVarints, Varint;
    var delta: nat := p.start - last;
    Glue(14, 112); Glue(delta, 0);
    ByteParts(240); ByteParts(30); ByteParts(delta * 2);
    FourVarints(delta * 2, p.end - p.start, p.startColumn + 1, p.endColumn + 1, rest);
    var bytes := Varint(delta * 2) + Varint(p.end - p.start) + Varint(p.startColumn + 1) + Varint(p.endColumn + 1);
    Regroup([240], Varint(delta * 2), Varint(p.end - p.start), Varint(p.startColumn + 1), Varint(p.endColumn + 1), []);
    assert Entry(p, last) == [240] + bytes;
    var s := Entry(p, last) + rest;
    assert s[0] == 240 && s[1..] == bytes + rest;
    forall i | 0 <= i < |Entry(p, last)|
      ensures And(Entry(p, last)[i], 128) != 0 <==> i == 0
    {
      ByteParts(Entry(p, last)[i]);
      if i > 0 {
        assert Entry(p, last)[i] in bytes;
      }
    }
  }

  /** An entry is read back whatever follows it, relative to whichever line the reader is at, and bit 7 is set
      on its first byte only. */
  lemma EntryRead(p: Position, last: int, line: int, rest: seq<nat>)
    requires Encodable(p, last)
    ensures ReadEntry(Entry(p, last) + rest, line) ==
            Some((Moved(p, line - last), |Entry(p, last)|))
    ensures Marked(Entry(p, last))
  {
    match FormOf(p, last)
    case Short => ShortRead(p, last, line, rest);
    case OneLine => OneLineRead(p, last, line, rest);
    case Long => LongRead(p, last, line, rest);
  }

  // ----- No entry is longer than it has to be -----

  /** A number takes no more bytes than any that are read as this number. */
  lemma {:induction false} VarintIsShortest(s: seq<nat>)
    requires ReadVarint(s).Some?
    ensures |Varint(ReadVarint(s).value.0)| <= ReadVarint(s).value.1
    decreases |s|
  {
    hide And, Varint, ReadVarint;
    ReadIs(s);
    VarintIs(ReadVarint(s).value.0);
    if And(s[0], 64) != 0 {
      VarintIsShortest(s[1..]);
    }
  }

  lemma ReadIs(s: seq<nat>)
    requires ReadVarint(s).Some?
    ensures s != []
    ensures And(s[0], 64) == 0 ==> ReadVarint(s).value == (s[0] % 64, 1)
    ensures And(s[0], 64) != 0 ==>
              && ReadVarint(s[1..]).Some?
              && ReadVarint(s).value == (ReadVarint(s[1..]).value.0 * 64 + s[0] % 64, 1 + ReadVarint(s[1..]).value.1)
  {
    hide And, Or, Shl, ReadVarint;
    NothingRead();
    ReadStep(s);
    LowBits(s[0]);
    if And(s[0], 64) != 0 {
      Joined(ReadVarint(s[1..]).value.0, And(s[0], 63));
    }
  }

  lemma NothingRead()
    ensures ReadVarint([]).None?
  {
  }

  lemma ReadStep(s: seq<nat>)
    requires s != []
    ensures And(s[0], 64) == 0 ==> ReadVarint(s) == Some((And(s[0], 63), 1))
    ensures And(s[0], 64) != 0 ==>
              ReadVarint(s) == (match ReadVarint(s[1..])
                                case None => None
                                case Some(rest) => Some((Or(And(s[0], 63), Shl(rest.0, 6)), 1 + rest.1)))
  {
    hide And, Or, Shl;
  }

  lemma LowBits(b: nat)
    ensures And(b, 63) == b % 64
  {
    hide And;
    ByteParts(b);
  }

  lemma Joined(hi: nat, lo: nat)
    requires lo < 64
    ensures Or(lo, Shl(hi, 6)) == hi * 64 + lo
  {
    hide Or;
    Glue(hi, lo);
  }

  lemma VarintGrows(a: nat, b: nat)
    requires a <= b
    ensures |Varint(a)| <= |Varint(b)|
    decreases b
  {
    hide Varint;
    VarintIs(a);
    VarintIs(b);
    if a >= 64 {
      VarintGrows(a / 64, b / 64);
    }
  }

  lemma FourAreShortest(s: seq<nat>)
    requires ReadVarints(s, 4).Some?
    ensures var (vs, n) := ReadVarints(s, 4).value;
            |Varint(vs[0])| + |Varint(vs[1])| + |Varint(vs[2])| + |Varint(vs[3])| <= n
  {
    hide Varint, ReadVarint;
    ShortestMore(s, 4);
    var s3 := s[ReadVarint(s).value.1..];
    ShortestMore(s3, 3);
    var s2 := s3[ReadVarint(s3).value.1..];
    ShortestMore(s2, 2);
    ShortestMore(s2[ReadVarint(s2).value.1..], 1);
  }

  lemma ShortestMore(s: seq<nat>, n: nat)
    requires n > 0 && ReadVarints(s, n).Some?
    ensures ReadVarint(s).Some? && ReadVarints(s[ReadVarint(s).value.1..], n - 1).Some?
    ensures var (vs, m) := ReadVarints(s, n).value;
            var (rest, k) := ReadVarints(s[ReadVarint(s).value.1..], n - 1).value;
            |Varint(vs[0])| + k <= m && vs[1..] == rest
  {
    hide Varint, ReadVarint;
    VarintIsShortest(s);
  }

  /** Bytes that are read as an entry in the short form: the position fits it. */
  lemma ShortFits(s: seq<nat>, last: int)
    requires ReadEntry(s, last).Some? && And(Shr(s[0], 3), 15) < 10
    ensures FormOf(ReadEntry(s, last).value.0, last).Short?
  {
    hide And, Or, Shr, Shl, ReadVarints, Varint;
    var code := And(Shr(s[0], 3), 15);
    ByteParts(s[1]);
    ByteParts(s[1] / 16);
    Glue(code, s[1] / 16 % 8);
  }

  lemma OneLineFits(s: seq<nat>, last: int)
    requires ReadEntry(s, last).Some? && 10 <= And(Shr(s[0], 3), 15) < 13 && Marked(s)
    ensures !FormOf(ReadEntry(s, last).value.0, last).Long?
  {
    hide And, Or, Shr, Shl, ReadVarints, Varint;
    ByteParts(s[1]);
    ByteParts(s[2]);
    assert s[1] in s && s[2] in s;
  }

  /** The chosen form is the shortest one: no bytes that are read as the position are fewer. */
  lemma EntryIsShortest(p: Position, last: int, s: seq<nat>)
    requires Encodable(p, last) && Marked(s) && ReadEntry(s, last) == Some((p, |s|))
    ensures |Entry(p, last)| <= |s|
  {
    hide And, Or, Shr, Shl, ReadVarints, ReadVarint, Varint;
    var code := And(Shr(s[0], 3), 15);
    if code < 10 {
      ShortFits(s, last);
    } else if code < 13 {
      OneLineFits(s, last);
    } else {
      var v := ReadVarints(s[1..], 4).value;
      FourAreShortest(s[1..]);
      FourBytes(s[1..]);
      ByteParts(v.0[0]);
      var delta: nat := p.start - last;
      Glue(delta, 0);
      VarintGrows(Shl(delta, 1), v.0[0]);
    }
  }

  lemma FourBytes(s: seq<nat>)
    requires ReadVarints(s, 4).Some?
    ensures ReadVarints(s, 4).value.1 >= 4
  {
    FourAreShortest(s);
  }

  // ----- Main results -----

  /** What a reader makes of the table of `ps`, written from line `last`, when it starts at `line`. */
  function Reading(ps: seq<Position>, last: int, line: int, base: Base): seq<Position> {
    if ps == [] then []
    else
      var p := Moved(ps[0], line - last);
      [p] + Reading(ps[1..], ps[0].end, NextLine(p, base), base)
  }

  lemma {:induction false} TableRead(ps: seq<Position>, last: int, line: int, base: Base)
    requires AllEncodable(ps, last)
    ensures ReadTable(Table(ps, last), line, base) == Some(Reading(ps, last, line, base))
  {
    hide Entry, ReadEntry, Encodable;
    if ps != [] {
      var p, tail := ps[0], Table(ps[1..], ps[0].end);
      EntryRead(p, last, line, tail);
      TableRead(ps[1..], p.end, NextLine(Moved(p, line - last), base), base);
      assert Table(ps, last)[|Entry(p, last)|..] == tail;
    }
  }

  /** A reader that counts line deltas from the previous entry's end line gets exactly the positions back. */
  lemma {:induction false} RoundTrip(ps: seq<Position>, first: int)
    requires AllEncodable(ps, first)
    ensures ReadTable(Table(ps, first), first, FromEnd) == Some(ps)
  {
    TableRead(ps, first, first, FromEnd);
    ReadingIsExact(ps, first);
  }

  lemma {:induction false} ReadingIsExact(ps: seq<Position>, last: int)
    ensures Reading(ps, last, last, FromEnd) == ps
  {
    if ps != [] {
      ReadingIsExact(ps[1..], ps[0].end);
    }
  }

  predicate AllOneLine(ps: seq<Position>) {
    forall p <- ps :: p.start == p.end
  }

  /** The reader of the location table format counts from the previous entry's start line.  It gets the positions
      back if and only if all of them but the last lie within one line. */
  lemma FormatReader(ps: seq<Position>, first: int)
    requires AllEncodable(ps, first)
    ensures ReadTable(Table(ps, first), first, FromStart) == Some(ps) <==> ps == [] || AllOneLine(ps[..|ps| - 1])
  {
    TableRead(ps, first, first, FromStart);
    ReadingFromStart(ps, first, first);
  }

  lemma {:induction false} ReadingFromStart(ps: seq<Position>, last: int, line: int)
    ensures Reading(ps, last, line, FromStart) == ps <==> ps == [] || (line == last && AllOneLine(ps[..|ps| - 1]))
  {
    if ps != [] {
      var p, rest := Moved(ps[0], line - last), Reading(ps[1..], ps[0].end, line + ps[0].start - last, FromStart);
      ReadingFromStart(ps[1..], ps[0].end, line + ps[0].start - last);
      assert ps == [ps[0]] + ps[1..];
      assert [p] + rest == ps <==> p == ps[0] && rest == ps[1..] by {
        assert ([p] + rest)[0] == p && ([p] + rest)[1..] == rest;
      }
      if |ps| > 1 {
        assert ps[..|ps| - 1] == [ps[0]] + ps[1..][..|ps| - 2];
        assert AllOneLine(ps[..|ps| - 1]) <==> ps[0].start == ps[0].end && AllOneLine(ps[1..][..|ps| - 2]) by {
          assert ps[0] in ps[..|ps| - 1];
        }
      }
    }
  }

  /** How far off that reader is: by the lines that the earlier entries span. */
  function Spanned(ps: seq<Position>): int {
    if ps == [] then 0 else Spanned(ps[..|ps| - 1]) + ps[|ps| - 1].end - ps[|ps| - 1].start
  }

  lemma FormatReaderDrift(ps: seq<Position>, first: int, k: nat)
    requires AllEncodable(ps, first) && k < |ps|
    ensures ReadTable(Table(ps, first), first, FromStart).Some?
    ensures |ReadTable(Table(ps, first), first, FromStart).value| == |ps|
    ensures ReadTable(Table(ps, first), first, FromStart).value[k] == Moved(ps[k], -Spanned(ps[..k]))
  {
    TableRead(ps, first, first, FromStart);
    ReadingAt(ps, first, first, k);
  }

  lemma {:induction false} ReadingAt(ps: seq<Position>, last: int, line: int, k: nat)
    requires k < |ps|
    ensures |Reading(ps, last, line, FromStart)| == |ps|
    ensures Reading(ps, last, line, FromStart)[k] == Moved(ps[k], line - last - Spanned(ps[..k]))
  {
    var line' := line + ps[0].start - last;
    if |ps| > 1 {
      ReadingAt(ps[1..], ps[0].end, line', if k > 0 then k - 1 else 0);
    }
    if k > 0 {
      SpannedFront(ps[..k]);
      assert ps[..k][1..] == ps[1..][..k - 1];
    }
  }

  lemma {:induction false} SpannedFront(ps: seq<Position>)
    requires ps != []
    ensures Spanned(ps) == ps[0].end - ps[0].start + Spanned(ps[1..])
  {
    if |ps| > 1 {
      SpannedFront(ps[..|ps| - 1]);
      assert ps[..|ps| - 1][1..] == ps[1..][..|ps| - 2];
    }
  }

  /** As many marked bytes as entries: the table can be cut into its entries by bit 7 alone. */
  function MarkedBytes(s: seq<nat>): nat {
    if s == [] then 0 else (if And(s[0], 128) != 0 then 1 else 0) + MarkedBytes(s[1..])
  }

  lemma {:induction false} OneMarkPerEntry(ps: seq<Position>, last: int)
    requires AllEncodable(ps, last)
    ensures MarkedBytes(Table(ps, last)) == |ps| && forall b <- Table(ps, last) :: b < 256
  {
    hide Entry, ReadEntry, Encodable;
    if ps != [] {
      EntryRead(ps[0], last, last, []);
      OneMarkPerEntry(ps[1..], ps[0].end);
      MarksAdd(Entry(ps[0], last), Table(ps[1..], ps[0].end));
    }
  }

  lemma MarksAdd(entry: seq<nat>, rest: seq<nat>)
    requires Marked(entry)
    ensures MarkedBytes(entry + rest) == 1 + MarkedBytes(rest)
  {
    assert (entry + rest)[1..] == entry[1..] + rest;
    NoMarks(entry[1..], rest);
  }

  lemma {:induction false} NoMarks(s: seq<nat>, rest: seq<nat>)
    requires forall b <- s :: And(b, 128) == 0
    ensures MarkedBytes(s + rest) == MarkedBytes(rest)
  {
    if s == [] {
      assert s + rest == rest;
    } else {
      assert (s + rest)[1..] == s[1..] + rest;
      NoMarks(s[1..], rest);
    }
  }
}
