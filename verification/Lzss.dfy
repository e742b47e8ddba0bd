/** The LZSS-like compressor of Cython/LZSS.py and the C decompressor that ships with it.

    `Compress` is the imperative encoder; `Items` is the parse of the input into literals and
    matches that it computes, `Encoding` the byte layout of that parse.  `Run` is the C decoder with
    every out-of-bounds access turned into an error.  The main results are `RoundTrip`,
    `CompressedSize` and `ItemsAreCopies`. */
module Lzss {
  import opened Bits
  import opened LzssSearch
  import opened LzssLayout

  // ----- The parse of the input -----

  /** One output item; the offset is the one that is stored, that is, reduced by the length. */
  datatype Item =
    | Literal(b: byte)
    | Short(offset: nat, length: nat)
    | Medium(offset: nat, length: nat)
    | Long(offset: nat, length: nat)

  function Span(item: Item): nat {
    if item.Literal? then 1 else item.length
  }

  function Flag(item: Item): nat {
    if item.Literal? then 1 else 0
  }

  function Choose(b: byte, found: (nat, nat)): Item {
    var stored, length := found.0 - found.1, found.1;
    if length > 2 && 0 <= stored <= 0x7F then Short(stored, length)
    else if length > 2 && length - 3 <= 0x1F && 0 <= stored <= 0x1FF then Medium(stored, length)
    else if length > 3 && 0 <= stored < 0x4000 then Long(stored, length)
    else Literal(b)
  }

  function NextItem(data: seq<byte>, pos: nat, table: HashTable): Item
    requires pos < |data|
  {
    Choose(data[pos], Find(data, pos, table))
  }

  /** The items for `data[pos..]`, given the positions recorded so far. */
  function Items(data: seq<byte>, pos: nat, table: HashTable): seq<Item>
    decreases |data| - pos
  {
    if pos >= |data| then [] else
    var item := NextItem(data, pos, table);
    if Span(item) == 0 then [item] else
    [item] + Items(data, pos + Span(item), Record(data, pos, table))
  }

  /** The stored fields fit their bits. */
  ghost predicate Fits(item: Item) {
    match item
    case Literal(_) => true
    case Short(offset, length) => offset <= 0x7F && 3 <= length <= 258
    case Medium(offset, length) => offset <= 0x1FF && 3 <= length <= 34
    case Long(offset, length) => offset <= 0x3FFF && 4 <= length <= 258
  }

  /** The item stands for the bytes at `pos`: the literal is that byte, and a match is a copy, out of
      what precedes `pos`, whose source does not reach into what it produces. */
  ghost predicate Produces(data: seq<byte>, pos: nat, item: Item) {
    match item
    case Literal(b) => pos < |data| && data[pos] == b
    case _ => item.offset + item.length <= pos && Copies(data, pos, item.offset + item.length, item.length)
  }

  lemma ChosenItem(data: seq<byte>, pos: nat, table: HashTable)
    requires pos < |data| && TableOk(data, pos, table)
    ensures var item := NextItem(data, pos, table);
      Fits(item) && Produces(data, pos, item) && 1 <= Span(item) <= |data| - pos
  {
    FindIsUsable(data, pos, table);
  }

  /** Where the k-th item starts. */
  function Start(items: seq<Item>, k: nat): nat
    requires k <= |items|
  {
    if k == 0 then 0 else Start(items, k - 1) + Span(items[k - 1])
  }

  lemma {:induction false} StartShift(items: seq<Item>, k: nat)
    requires 0 < k <= |items|
    ensures Start(items, k) == Span(items[0]) + Start(items[1..], k - 1)
  {
    if k > 1 {
      StartShift(items, k - 1);
    }
  }

  /** Unfolding the parse by one item. */
  lemma ItemsStep(data: seq<byte>, pos: nat, table: HashTable) returns (item: Item, next: nat, table': HashTable)
    requires pos < |data| && TableOk(data, pos, table)
    ensures item == NextItem(data, pos, table) && table' == Record(data, pos, table)
    ensures Fits(item) && Produces(data, pos, item) && 1 <= Span(item) && next == pos + Span(item) <= |data|
    ensures TableOk(data, next, table')
    ensures Items(data, pos, table) == [item] + Items(data, next, table')
  {
    hide Find, Best, LazySkips, Key, Choose;
    ChosenItem(data, pos, table);
    item := NextItem(data, pos, table);
    next, table' := pos + Span(item), Record(data, pos, table);
    RecordOk(data, pos, table, next);
  }

  lemma MoreItems(data: seq<byte>, pos: nat, table: HashTable)
    ensures Items(data, pos, table) == [] <==> pos >= |data|
  {
  }

  /** Every emitted match copies already decoded, non-overlapping bytes, and every stored field fits
      its bits. */
  lemma {:induction false} ItemsAreCopies(data: seq<byte>, pos: nat, table: HashTable, k: nat)
    requires pos <= |data| && TableOk(data, pos, table) && k < |Items(data, pos, table)|
    ensures var items := Items(data, pos, table);
      Fits(items[k]) && Produces(data, pos + Start(items, k), items[k])
    decreases k
  {
    hide Items, TableOk, Record, Produces, Fits, NextItem;
    MoreItems(data, pos, table);
    var item, next, table' := ItemsStep(data, pos, table);
    var items, rest := Items(data, pos, table), Items(data, next, table');
    if k == 0 {
      assert Start(items, 0) == 0 && items[0] == item;
    } else {
      assert items[1..] == rest && items[0] == item && items[k] == rest[k - 1];
      ItemsAreCopies(data, next, table', k - 1);
      StartShift(items, k);
    }
  }

  /** The items cover the input exactly. */
  lemma {:induction false} ItemsCover(data: seq<byte>, pos: nat, table: HashTable)
    requires pos <= |data| && TableOk(data, pos, table)
    ensures var items := Items(data, pos, table);
      pos + Start(items, |items|) == |data|
    decreases |data| - pos
  {
    if pos < |data| {
      var item, next, table' := ItemsStep(data, pos, table);
      var items := Items(data, pos, table);
      assert items[1..] == Items(data, next, table');
      ItemsCover(data, next, table');
      StartShift(items, |items|);
    }
  }

  // ----- Byte layout -----

  function Payload(item: Item): seq<nat> {
    match item
    case Literal(b) => [b]
    case Short(offset, length) => [offset, Max(0, length - 3)]
    case Medium(offset, length) =>
      [Or(And(offset, 0x7F), 0x80), Or(Shr(And(offset, 0x180), 2), Max(0, length - 3))]
    case Long(offset, length) =>
      [Or(And(offset, 0x7F), 0x80), Or(And(Shr(offset, 7), 0x7F), 0x80), Max(0, length - 3)]
  }

  lemma FormArithmetic(offset: nat, extra: nat)
    ensures And(offset, 0x7F) == offset % 0x80
    ensures Or(And(offset, 0x7F), 0x80) == 0x80 + offset % 0x80
    ensures Or(And(Shr(offset, 7), 0x7F), 0x80) == 0x80 + offset / 0x80 % 0x80
    ensures extra < 0x20 ==> Or(Shr(And(offset, 0x180), 2), extra) == offset / 0x80 % 4 * 0x20 + extra
  {
    hide And, Or, Shr;
    var low, high := offset % 0x80, offset / 0x80;
    Powers();
    AndLowMask(offset, 7);
    OrDisjoint(1, low, 7);
    ShrDivides(offset, 7);
    AndLowMask(high, 7);
    OrDisjoint(1, high % 0x80, 7);
    if extra < 0x20 {
      MiddleBits(offset, high);
      OrDisjoint(high % 4, extra, 5);
    }
  }

  lemma MiddleBits(offset: nat, high: nat)
    requires high == offset / 0x80
    ensures Shr(And(offset, 0x180), 2) == high % 4 * 0x20
  {
    hide And, Or, Shr;
    Powers();
    ShrDivides(offset, 7);
    AndHighMask(offset, 3, 7);
    AndLowMask(high, 2);
    ShrDivides(high % 4 * 0x80, 2);
  }

  lemma PayloadBytes(item: Item)
    requires Fits(item)
    ensures forall i :: 0 <= i < |Payload(item)| ==> Payload(item)[i] < 0x100
    ensures 1 <= |Payload(item)| <= Span(item)
  {
    if !item.Literal? {
      FormArithmetic(item.offset, item.length - 3);
    }
  }

  /** The items as chunks of the layout. */
  function Chunks(items: seq<Item>): (chunks: seq<Chunk>)
    ensures |chunks| == |items|
  {
    if items == [] then [] else [ChunkOf(items[0])] + Chunks(items[1..])
  }

  function ChunkOf(item: Item): Chunk {
    Chunk(Flag(item), Payload(item))
  }

  /** The compressed form of the input from `pos` on, when the current flag byte has `m` places left. */
  function Rest(m: nat, data: seq<byte>, pos: nat, table: HashTable): seq<nat> {
    Tail(m, Chunks(Items(data, pos, table)))
  }

  function Encoding(data: seq<byte>): seq<nat> {
    Encode(Chunks(Items(data, 0, map[])))
  }

  /** The compressed size is at most one byte per input byte and one flag byte per eight items. */
  lemma {:induction false} RestSize(data: seq<byte>, pos: nat, table: HashTable, m: nat)
    requires pos <= |data| && TableOk(data, pos, table) && m < 8
    ensures |Rest(m, data, pos, table)| <= |data| - pos + (|data| - pos + 7 - m) / 8
    decreases |data| - pos
  {
    if pos < |data| {
      var item, next, table' := ItemsStep(data, pos, table);
      var items, rest := Items(data, pos, table), Items(data, next, table');
      PayloadBytes(item);
      RestSize(data, next, table', if m == 0 then 7 else m - 1);
      hide Items, TableOk, Record, Produces, NextItem, Payload;
      assert items[1..] == rest;
      assert Chunks(items) == [ChunkOf(item)] + Chunks(rest);
      assert Chunks(items)[1..] == Chunks(rest);
    }
  }

  /** Compressing n bytes takes at most n + ceil(n / 8) bytes. */
  lemma CompressedSize(data: seq<byte>)
    ensures |Encoding(data)| <= |data| + (|data| + 7) / 8
  {
    RestSize(data, 0, map[], 0);
  }

  /** The state of the output between two items. */
  ghost predicate Emitted(output: seq<nat>, flagsPos: nat, flags: nat, full: seq<Chunk>, group: seq<Chunk>) {
    && |full| % 8 == 0 && |group| < 8 && Proper(group)
    && flagsPos == |Encode(full)|
    && output == Encode(full) + ([0] + Payloads(group))
    && flags == Register(group)
  }

  lemma EmittedStart()
    ensures Emitted([0], 0, 0xFF0000, [], [])
  {
    Powers();
  }

  /** Appending the bytes of one more chunk and entering its flag; the eighth flag completes the group
      and opens the next one. */
  lemma EmittedStep(output: seq<nat>, flagsPos: nat, flags: nat, full: seq<Chunk>, group: seq<Chunk>, c: Chunk)
    requires Emitted(output, flagsPos, flags, full, group) && c.flag <= 1 && c.bytes != []
    ensures var output', flags' := output + c.bytes, Or(Shl(c.flag, 7), Shr(flags, 1));
      && flagsPos < |output'| && |group| <= 7
      && (flags' < 0x10000 <==> |group| == 7)
      && (|group| < 7 ==> Emitted(output', flagsPos, flags', full, group + [c]))
      && (|group| == 7 ==>
            Emitted(output'[flagsPos := And(flags', 0xFF)] + [0], |output'|, 0xFF0000, full + (group + [c]), []))
  {
    hide Or, And, Shr, Shl, Register, Encode, FlagBits;
    var output', flags' := output + c.bytes, Or(Shl(c.flag, 7), Shr(flags, 1));
    var group' := group + [c];
    RegisterStep(group, c);
    PayloadsSnoc(group, c);
    var base := Encode(full);
    assert output' == base + ([0] + Payloads(group'));
    if |group| == 7 {
      FullGroup(output', flagsPos, flags', full, group');
    }
  }

  lemma FullGroup(output: seq<nat>, flagsPos: nat, flags: nat, full: seq<Chunk>, group: seq<Chunk>)
    requires |full| % 8 == 0 && |group| == 8 && Proper(group) && flags == Register(group)
    requires flagsPos == |Encode(full)| && output == Encode(full) + ([0] + Payloads(group))
    ensures Emitted(output[flagsPos := And(flags, 0xFF)] + [0], |output|, 0xFF0000, full + group, [])
  {
    hide And, Or, Shr, FlagBits, Tail;
    FlagBitsFit(8, group);
    Powers();
    LowByte(FlagBits(8, group));
    PatchFlags(output, flagsPos, full, group);
    EmittedStart();
    assert Payloads([]) == [];
  }

  /** Patching the flag byte of the current group into its place. */
  lemma PatchFlags(output: seq<nat>, flagsPos: nat, full: seq<Chunk>, group: seq<Chunk>)
    requires |full| % 8 == 0 && 0 < |group| <= 8
    requires flagsPos == |Encode(full)| && output == Encode(full) + ([0] + Payloads(group))
    ensures output[flagsPos := FlagBits(8, group)] == Encode(full + group)
  {
    GroupDone(full, group);
  }

  /** Appends the bytes of one item in the form that fits. */
  method AppendItem(output: seq<nat>, b: byte, found: nat, length: nat)
    returns (output': seq<nat>, flag: nat, length': nat)
    ensures var item := Choose(b, (found, length));
      output' == output + Payload(item) && flag == Flag(item) && length' == Span(item)
  {
    flag, length' := 0, length;
    output' := output;
    var offset: int := found - length;
    if length > 2 && 0 <= offset <= 0x7F {
      output' := output' + [offset];
      output' := output' + [length - 3];
    } else if length > 2 && length - 3 <= 0x1F && 0 <= offset <= 0x1FF {
      output' := output' + [Or(And(offset, 0x7F), 0x80)];
      output' := output' + [Or(Shr(And(offset, 0x180), 2), length - 3)];
    } else if length > 3 && 0 <= offset < 0x4000 {
      output' := output' + [Or(And(offset, 0x7F), 0x80)];
      output' := output' + [Or(And(Shr(offset, 7), 0x7F), 0x80)];
      output' := output' + [length - 3];
    } else {
      flag := 1;
      length' := 1;
      output' := output' + [b];
    }
  }

  lemma EmittedEnd(output: seq<nat>, flagsPos: nat, flags: nat, full: seq<Chunk>, group: seq<Chunk>)
    requires Emitted(output, flagsPos, flags, full, group)
    ensures flagsPos < |output| && (flagsPos == |output| - 1 <==> group == [])
    ensures group == [] ==> output[..|output| - 1] == Encode(full + group)
    ensures group != [] ==> output[flagsPos := FlagBits(8, group)] == Encode(full + group)
    ensures |group| < 8 && Proper(group) && flags == Register(group) && FlagBits(8, group) < 0x100
  {
    Powers();
    FlagBitsFit(8, group);
    if group == [] {
      assert full + group == full;
    } else {
      assert group[0] in group;
      assert |Payloads(group)| > 0;
      PatchFlags(output, flagsPos, full, group);
    }
  }

  lemma NoItems(data: seq<byte>, pos: nat, table: HashTable)
    requires pos >= |data|
    ensures Chunks(Items(data, pos, table)) == []
  {
  }

  lemma Regroup<T>(a: seq<T>, c: T, d: seq<T>)
    ensures a + ([c] + d) == a + [c] + d
  {
  }

  lemma ChunksStep(data: seq<byte>, pos: nat, table: HashTable) returns (c: Chunk, next: nat)
    requires pos < |data| && TableOk(data, pos, table)
    ensures var item, table' := Choose(data[pos], Find(data, pos, table)), Record(data, pos, table);
      && c == Chunk(Flag(item), Payload(item)) && c.flag <= 1 && c.bytes != []
      && next == pos + Span(item) && pos < next <= |data| && TableOk(data, next, table')
      && Chunks(Items(data, pos, table)) == [c] + Chunks(Items(data, next, table'))
  {
    var item, next', table' := ItemsStep(data, pos, table);
    PayloadBytes(item);
    c, next := ChunkOf(item), next';
    var rest := Items(data, next, table');
    assert ([item] + rest)[1..] == rest;
  }

  /** Enters the flag of the item just appended; the eighth flag is written out in front of its group. */
  method EnterFlag(output: seq<nat>, flagsPos: nat, flags: nat, flag: nat,
                   ghost before: seq<nat>, ghost full: seq<Chunk>, ghost group: seq<Chunk>, ghost c: Chunk)
    returns (output': seq<nat>, flagsPos': nat, flags': nat, ghost full': seq<Chunk>, ghost group': seq<Chunk>)
    requires Emitted(before, flagsPos, flags, full, group)
    requires output == before + c.bytes && flag == c.flag && c.flag <= 1 && c.bytes != []
    ensures Emitted(output', flagsPos', flags', full', group')
    ensures full' + group' == full + group + [c]
  {
    hide Or, And, Shr, Shl, Emitted;
    EmittedStep(before, flagsPos, flags, full, group, c);
    output', flagsPos' := output, flagsPos;
    flags' := Or(Shl(flag, 7), Shr(flags, 1));
    if flags' < 0x10000 {
      output' := output'[flagsPos := And(flags', 0xFF)];
      flagsPos' := |output'|;
      output' := output' + [0];
      flags' := 0xFF0000;
      full', group' := full + (group + [c]), [];
    } else {
      full', group' := full, group + [c];
    }
  }

  /** Drops an unused flag byte, or writes the flags of the last group padded with zeros. */
  method Finish(output: seq<nat>, flagsPos: nat, flags: nat, ghost full: seq<Chunk>, ghost group: seq<Chunk>)
    returns (output': seq<nat>)
    requires Emitted(output, flagsPos, flags, full, group)
    ensures output' == Encode(full + group + [])
  {
    assert full + group + [] == full + group;
    EmittedEnd(output, flagsPos, flags, full, group);
    hide Encode, Emitted, Register, And;
    if flagsPos == |output| - 1 {
      output' := output[..|output| - 1];
    } else {
      var padded := PadFlags(flags, group);
      LowByte(FlagBits(8, group));
      output' := output[flagsPos := And(padded, 0xFF)];
    }
  }

  lemma NothingStored(data: seq<byte>)
    ensures TableOk(data, 0, map[])
  {
  }

  /** The compressor: item bytes are appended as they come, flag bytes are patched in afterwards. */
  method Compress(data: seq<byte>) returns (output: seq<nat>)
    ensures output == Encoding(data)
  {
    hide Items, Find, Choose, Payload, Chunks, TableOk, Record, Emitted, Flag, Span;
    if data == [] {
      NoItems(data, 0, map[]);
      return [];
    }
    var table: HashTable := map[];
    output := [0];
    var pos: nat, flagsPos: nat, flags: nat := 0, 0, 0xFF0000;
    ghost var full: seq<Chunk>, group: seq<Chunk> := [], [];
    EmittedStart();
    NothingStored(data);

    while pos < |data|
      invariant pos <= |data| && TableOk(data, pos, table)
      invariant full + group + Chunks(Items(data, pos, table)) == Chunks(Items(data, 0, map[]))
      invariant Emitted(output, flagsPos, flags, full, group)
      decreases |data| - pos
    {
      ghost var c, next := ChunksStep(data, pos, table);
      var offset, length := FindLongestMatch(data, pos, table);
      table := Record(data, pos, table);

      var flag;
      ghost var before := output;
      output, flag, length := AppendItem(output, data[pos], offset, length);
      pos := pos + length;
      Regroup(full + group, c, Chunks(Items(data, pos, table)));
      output, flagsPos, flags, full, group := EnterFlag(output, flagsPos, flags, flag, before, full, group, c);
    }

    NoItems(data, pos, table);
    output := Finish(output, flagsPos, flags, full, group);
  }

  // ----- The decompressor -----

  datatype Outcome =
    | Decoded(out: seq<nat>, consumed: nat)
    | ReadBeyondEnd
    | WriteBeyondEnd
    | ReferenceBeforeStart

  /** A back reference as the decompressor reads it: offset of its end, length, next position. */
  datatype Reference = Reference(endOffset: nat, length: nat, next: nat) | Truncated

  function ReadReference(src: seq<nat>, p: nat): Reference {
    if p + 1 >= |src| then Truncated else
    var lo, hi := src[p], src[p + 1];
    if And(lo, 0x80) == 0 then Reference(lo, hi + 3, p + 2)
    else if And(hi, 0x80) == 0 then
      Reference(Or(And(Shl(hi, 2), 0x180), And(lo, 0x7F)), And(hi, 0x1F) + 3, p + 2)
    else if p + 2 >= |src| then Truncated
    else Reference(Or(Shl(And(hi, 0x7F), 7), And(lo, 0x7F)), src[p + 2] + 3, p + 3)
  }

  /** The decoder from a state in the middle: `flags` is the C register with its 0xFF00 sentinel,
      `p` the read position, `out` what has been written, `dstLen` the size of the target. */
  function Run(src: seq<nat>, p: nat, flags: nat, out: seq<nat>, dstLen: nat): Outcome
    decreases |src| - p
  {
    if And(flags, 0x100) == 0 then
      if p >= |src| then ReadBeyondEnd
      else Run(src, p + 1, Or(src[p], 0xFF00), out, dstLen)
    else if And(flags, 1) == 1 then
      if p >= |src| then ReadBeyondEnd
      else if |out| >= dstLen then WriteBeyondEnd
      else Continue(src, p, p + 1, flags, out + [src[p]], dstLen)
    else
      match ReadReference(src, p)
      case Truncated => ReadBeyondEnd
      case Reference(endOffset, length, next) =>
        if endOffset + length > |out| then ReferenceBeforeStart
        else if |out| + length > dstLen then WriteBeyondEnd
        else
          var ref := |out| - endOffset - length;
          Continue(src, p, next, flags, out + out[ref..ref + length], dstLen)
  }

  function Continue(src: seq<nat>, prev: nat, p: nat, flags: nat, out: seq<nat>, dstLen: nat): Outcome
    requires prev < p && prev < |src|
    decreases |src| - prev, 0
  {
    if |out| >= dstLen then Decoded(out, p) else
    Run(src, p, Shr(flags, 1), out, dstLen)
  }

  function Decompress(src: seq<nat>, dstLen: nat): Outcome {
    if src == [] then ReadBeyondEnd else Run(src, 1, Or(src[0], 0xFF00), [], dstLen)
  }

  // ----- Round trip -----

  /** The decoder's flag register when `m` places of the current flag byte are left. */
  function DecoderRegister(m: nat, chunks: seq<Chunk>): nat {
    FlagBits(m, chunks) + 0xFF * Pow2(m)
  }

  lemma SentinelBit(f: nat, m: nat)
    requires m <= 8 && f < Pow2(m)
    ensures And(f + 0xFF * Pow2(m), 0x100) == 0 <==> m == 0
  {
    hide And, Shr;
    Powers();
    var p := Pow2(m);
    PowerAtMost(m);
    var x := f + 0xFF * p;
    assert x / 0x100 == p - 1 by { DivModUnique(x, 0x100, p - 1, f + 0x100 - p); }
    AndHighMask(x, 1, 8);
    ShrDivides(x, 8);
    AndLowMask(p - 1, 1);
  }

  lemma PowerAtMost(m: nat)
    requires m <= 8
    ensures Pow2(m) <= 0x100 && (m > 0 ==> Pow2(m) % 2 == 0) && (m == 0 ==> Pow2(m) == 1)
  {
    Powers();
    assert m == 0 || m == 1 || m == 2 || m == 3 || m == 4 || m == 5 || m == 6 || m == 7 || m == 8;
  }

  /** What the decoder reads off its register: whether a flag is left, the flag, and the rest. */
  lemma ReadRegister(m: nat, chunks: seq<Chunk>)
    requires m <= 8 && Proper(chunks) && chunks != []
    ensures And(DecoderRegister(m, chunks), 0x100) == 0 <==> m == 0
    ensures m == 0 ==> Or(FlagBits(8, chunks), 0xFF00) == DecoderRegister(8, chunks)
    ensures m > 0 ==> And(DecoderRegister(m, chunks), 1) == chunks[0].flag
    ensures m > 0 ==> Shr(DecoderRegister(m, chunks), 1) == DecoderRegister(m - 1, chunks[1..])
  {
    hide And, Or, Shr;
    Powers();
    FlagBitsFit(m, chunks);
    SentinelBit(FlagBits(m, chunks), m);
    if m == 0 {
      FlagBitsFit(8, chunks);
      OrDisjoint(0xFF, FlagBits(8, chunks), 8);
    } else {
      assert chunks[0] in chunks;
      ShiftOut(chunks[0].flag, DecoderRegister(m - 1, chunks[1..]));
      assert DecoderRegister(m, chunks) == chunks[0].flag + 2 * DecoderRegister(m - 1, chunks[1..]);
    }
  }

  lemma ShiftOut(flag: nat, rest: nat)
    requires flag <= 1
    ensures And(flag + 2 * rest, 1) == flag && Shr(flag + 2 * rest, 1) == rest
  {
    hide And, Shr;
    Powers();
    AndLowMask(flag + 2 * rest, 1);
    ShrDivides(flag + 2 * rest, 1);
  }

  lemma TopBit(y: nat)
    requires y < 0x100
    ensures And(y, 0x80) == (if y < 0x80 then 0 else 0x80)
    ensures And(y, 0x7F) == y % 0x80
  {
    Powers();
    AndHighMask(y, 1, 7);
    ShrDivides(y, 7);
    AndLowMask(y / 0x80, 1);
    AndLowMask(y, 7);
  }

  lemma ReadMediumOffset(top: nat, low: nat, extra: nat)
    requires top < 4 && low < 0x80 && extra < 0x20
    ensures var hi := top * 0x20 + extra;
      And(hi, 0x80) == 0 && And(hi, 0x1F) == extra && Or(And(Shl(hi, 2), 0x180), low) == top * 0x80 + low
  {
    hide And, Or, Shr;
    Powers();
    var hi := top * 0x20 + extra;
    TopBit(hi);
    AndLowMask(hi, 5);
    MediumBits(top, extra);
    OrDisjoint(top, low, 7);
  }

  lemma MediumBits(top: nat, extra: nat)
    requires top < 4 && extra < 0x20
    ensures And(top * 0x80 + extra * 4, 0x180) == top * 0x80
  {
    Powers();
    var x := top * 0x80 + extra * 4;
    AndHighMask(x, 3, 7);
    ShrDivides(x, 7);
    assert x / 0x80 == top;
    AndLowMask(top, 2);
  }

  lemma ReadLongOffset(offset: nat)
    requires offset < 0x4000
    ensures Or(Shl(offset / 0x80 % 0x80, 7), offset % 0x80) == offset
  {
    hide Or;
    Powers();
    var top := offset / 0x80;
    assert top % 0x80 == top;
    OrDisjoint(top, offset % 0x80, 7);
  }

  lemma ReadShort(src: seq<nat>, p: nat, item: Item)
    requires Fits(item) && item.Short? && p + 1 < |src| && Payload(item) == [src[p], src[p + 1]]
    ensures ReadReference(src, p) == Reference(item.offset, item.length, p + 2)
  {
    hide And, Or, Shr, Shl;
    TopBit(item.offset);
  }

  lemma ReadMedium(src: seq<nat>, p: nat, item: Item)
    requires Fits(item) && item.Medium? && p + 1 < |src| && Payload(item) == [src[p], src[p + 1]]
    ensures ReadReference(src, p) == Reference(item.offset, item.length, p + 2)
  {
    hide And, Or, Shr, Shl;
    FormArithmetic(item.offset, item.length - 3);
    TopBit(src[p]);
    ReadMediumOffset(item.offset / 0x80, item.offset % 0x80, item.length - 3);
  }

  lemma ReadLong(src: seq<nat>, p: nat, item: Item)
    requires Fits(item) && item.Long? && p + 2 < |src| && Payload(item) == [src[p], src[p + 1], src[p + 2]]
    ensures ReadReference(src, p) == Reference(item.offset, item.length, p + 3)
  {
    hide And, Or, Shr, Shl;
    FormArithmetic(item.offset, item.length - 3);
    TopBit(src[p]);
    TopBit(src[p + 1]);
    ReadLongOffset(item.offset);
  }

  /** The three match forms are told apart by the top bits of the first and the second byte, and the
      decoder reads back the stored offset and length. */
  lemma ReadItem(src: seq<nat>, p: nat, item: Item, more: seq<nat>)
    requires p <= |src| && Fits(item) && !item.Literal? && src[p..] == Payload(item) + more
    ensures ReadReference(src, p) == Reference(item.offset, item.length, p + |Payload(item)|)
  {
    hide And, Or, Shr, Shl, ReadReference;
    var bytes := Payload(item);
    assert forall i :: 0 <= i < |bytes| ==> src[p..][i] == bytes[i];
    match item
    case Short(_, _) => ReadShort(src, p, item);
    case Medium(_, _) => ReadMedium(src, p, item);
    case Long(_, _) => ReadLong(src, p, item);
  }

  /** One decoder step undoes one encoder step. */
  lemma DecodeItem(src: seq<nat>, p: nat, flags: nat, data: seq<byte>, pos: nat, item: Item, more: seq<nat>)
    requires p <= |src| && src[p..] == Payload(item) + more
    requires Fits(item) && Produces(data, pos, item) && pos + Span(item) <= |data|
    requires And(flags, 0x100) != 0 && And(flags, 1) == Flag(item)
    ensures var next, p' := pos + Span(item), p + |Payload(item)|;
      && p < p' <= |src| && src[p'..] == more
      && Run(src, p, flags, data[..pos], |data|)
         == if next >= |data| then Decoded(data, p') else Run(src, p', Shr(flags, 1), data[..next], |data|)
  {
    hide And, Or, Shr, Shl, Payload, ReadReference, Fits;
    PayloadBytes(item);
    assert data[..|data|] == data;
    if item.Literal? {
      DecodeLiteral(src, p, flags, data, pos, item, more);
    } else {
      ReadItem(src, p, item, more);
      CopiedBytes(data, pos, item);
      var ref := pos - item.offset - item.length;
      assert Run(src, p, flags, data[..pos], |data|)
          == Continue(src, p, p + |Payload(item)|, flags,
                      data[..pos] + data[..pos][ref..ref + item.length], |data|);
    }
  }

  lemma DecodeLiteral(src: seq<nat>, p: nat, flags: nat, data: seq<byte>, pos: nat, item: Item, more: seq<nat>)
    requires p <= |src| && src[p..] == Payload(item) + more
    requires item.Literal? && pos < |data| && data[pos] == item.b
    requires And(flags, 0x100) != 0 && And(flags, 1) == 1
    ensures p < |src| && src[p + 1..] == more && |Payload(item)| == 1
    ensures Run(src, p, flags, data[..pos], |data|)
         == Continue(src, p, p + 1, flags, data[..pos + 1], |data|)
  {
    hide And, Or, Shr, Shl;
    assert src[p] == src[p..][0] == item.b;
    assert data[..pos] + [data[pos]] == data[..pos + 1];
  }

  lemma CopiedBytes(data: seq<byte>, pos: nat, item: Item)
    requires !item.Literal? && Produces(data, pos, item)
    ensures var ref := pos - item.offset - item.length;
      data[..pos] + data[..pos][ref..ref + item.length] == data[..pos + item.length]
  {
    var ref := pos - item.offset - item.length;
    assert data[..pos][ref..ref + item.length] == data[ref..ref + item.length];
    assert data[..pos] + data[pos..pos + item.length] == data[..pos + item.length];
  }

  lemma {:induction false} ChunksProper(data: seq<byte>, pos: nat, table: HashTable)
    requires pos <= |data| && TableOk(data, pos, table)
    ensures Proper(Chunks(Items(data, pos, table)))
    decreases |data| - pos
  {
    if pos < |data| {
      var item, next, table' := ItemsStep(data, pos, table);
      var items, rest := Items(data, pos, table), Items(data, next, table');
      PayloadBytes(item);
      ChunksProper(data, next, table');
      assert items[1..] == rest;
      assert Chunks(items) == [ChunkOf(item)] + Chunks(rest);
    }
  }

  /** Decoding what is left of the stream, with `m` places left in the flag byte, completes the data. */
  lemma {:induction false} DecodeRest(m: nat, data: seq<byte>, pos: nat, table: HashTable, src: seq<nat>, p: nat)
    requires m <= 8 && pos < |data| && TableOk(data, pos, table)
    requires p <= |src| && src[p..] == Rest(m, data, pos, table)
    ensures Run(src, p, DecoderRegister(m, Chunks(Items(data, pos, table))), data[..pos], |data|)
         == Decoded(data, |src|)
    decreases |data| - pos, m == 0
  {
    hide Items, Payload, TableOk, Produces, Fits, NextItem, Record, FlagBits, DecoderRegister, Run;
    var item, next, table' := ItemsStep(data, pos, table);
    var items, rest := Items(data, pos, table), Items(data, next, table');
    assert items[1..] == rest;
    var chunks := Chunks(items);
    if m == 0 {
      ChunksProper(data, pos, table);
      ReadRegister(0, chunks);
      RestLoads(src, p, chunks);
      DecodeRest(8, data, pos, table, src, p + 1);
      RunLoads(src, p, DecoderRegister(0, chunks), data[..pos], |data|);
    } else {
      DecodeOne(m, data, pos, table, src, p);
      if next < |data| {
        DecodeRest(m - 1, data, next, table', src, p + |Payload(item)|);
      }
    }
  }

  lemma DecodeOne(m: nat, data: seq<byte>, pos: nat, table: HashTable, src: seq<nat>, p: nat)
    requires 0 < m <= 8 && pos < |data| && TableOk(data, pos, table)
    requires p <= |src| && src[p..] == Rest(m, data, pos, table)
    ensures var item, table' := NextItem(data, pos, table), Record(data, pos, table);
      var next, p' := pos + Span(item), p + |Payload(item)|;
      && next <= |data| && p' <= |src| && src[p'..] == Rest(m - 1, data, next, table')
      && Run(src, p, DecoderRegister(m, Chunks(Items(data, pos, table))), data[..pos], |data|)
         == if next >= |data| then Decoded(data, |src|)
            else Run(src, p', DecoderRegister(m - 1, Chunks(Items(data, next, table'))), data[..next], |data|)
  {
    hide Items, Payload, TableOk, Produces, Fits, NextItem, Record, FlagBits, DecoderRegister, Run, Flag, Span,
      Decompress, Find, And, Shr;
    var item, next, table' := ItemsStep(data, pos, table);
    var items, rest := Items(data, pos, table), Items(data, next, table');
    assert items[1..] == rest;
    var chunks, more := Chunks(items), Rest(m - 1, data, next, table');
    ChunksProper(data, pos, table);
    assert chunks == [ChunkOf(item)] + Chunks(rest) && chunks[1..] == Chunks(rest);
    ReadRegister(m, chunks);
    assert src[p..] == Payload(item) + more;
    DecodeItem(src, p, DecoderRegister(m, chunks), data, pos, item, more);
    if next >= |data| {
      NoItems(data, next, table');
      assert more == [];
    }
  }

  lemma RestLoads(src: seq<nat>, p: nat, chunks: seq<Chunk>)
    requires p <= |src| && chunks != [] && src[p..] == Tail(0, chunks)
    ensures p < |src| && src[p] == FlagBits(8, chunks) && src[p + 1..] == Tail(8, chunks)
  {
    assert src[p..] == [FlagBits(8, chunks)] + Tail(8, chunks);
    assert src[p] == src[p..][0];
    assert src[p + 1..] == src[p..][1..];
  }

  lemma RunLoads(src: seq<nat>, p: nat, flags: nat, out: seq<nat>, dstLen: nat)
    requires p < |src| && And(flags, 0x100) == 0
    ensures Run(src, p, flags, out, dstLen) == Run(src, p + 1, Or(src[p], 0xFF00), out, dstLen)
  {
  }

  /** Decompressing to the known size returns exactly the data and consumes exactly the compressed
      bytes.  The one exception is the empty input: its compressed form is empty, and the decompressor,
      which reads a flag byte before it looks at the size, would read beyond the end. */
  lemma RoundTrip(data: seq<byte>)
    ensures Decompress(Encoding(data), |data|) == Decoded(data, |Encoding(data)|) <==> data != []
    ensures data == [] ==> Decompress(Encoding(data), |data|) == ReadBeyondEnd
  {
    var src := Encoding(data);
    if data != [] {
      DecodeRest(0, data, 0, map[], src, 0);
      var chunks := Chunks(Items(data, 0, map[]));
      ChunksProper(data, 0, map[]);
      var item, next, table := ItemsStep(data, 0, map[]);
      ReadRegister(0, chunks);
      assert src != [];
    }
  }
}
