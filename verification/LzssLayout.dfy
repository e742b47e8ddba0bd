/** The byte layout of the compressed stream: a flag byte in front of every eight chunks, one flag
    bit a chunk.  `Tail` is what follows when some places of the current flag byte are still free;
    `Register` is the flag register of the encoder, which collects the flags below a sentinel. */
module LzssLayout {
  import opened Bits

  /** One output item as bytes, with its flag: 1 for a plain byte, 0 for a back reference. */
  datatype Chunk = Chunk(flag: nat, bytes: seq<nat>)

  /** The flags of the next `m` chunks, the first one in the lowest bit, padded with zeros. */
  function FlagBits(m: nat, chunks: seq<Chunk>): nat {
    if m == 0 || chunks == [] then 0 else chunks[0].flag + 2 * FlagBits(m - 1, chunks[1..])
  }

  /** The bytes that follow when the current flag byte has `m` places left. */
  function Tail(m: nat, chunks: seq<Chunk>): seq<nat>
    decreases |chunks|
  {
    if chunks == [] then []
    else if m == 0 then [FlagBits(8, chunks)] + chunks[0].bytes + Tail(7, chunks[1..])
    else chunks[0].bytes + Tail(m - 1, chunks[1..])
  }

  function Encode(chunks: seq<Chunk>): seq<nat> {
    Tail(0, chunks)
  }

  /** The bytes of the chunks alone. */
  function Payloads(chunks: seq<Chunk>): seq<nat> {
    if chunks == [] then [] else chunks[0].bytes + Payloads(chunks[1..])
  }

  ghost predicate Proper(chunks: seq<Chunk>) {
    forall c :: c in chunks ==> c.flag <= 1 && c.bytes != []
  }

  /** Splitting the layout after a full group. */
  lemma {:induction false} TailConcat(m: nat, a: seq<Chunk>, b: seq<Chunk>)
    requires m <= 8
    requires |a| % 8 == m % 8 && m <= |a|
    ensures Tail(m, a + b) == Tail(m, a) + Encode(b)
    decreases |a|
  {
    if a == [] {
      assert a + b == b;
    } else {
      var rest := a[1..];
      assert (a + b)[1..] == rest + b;
      if m == 0 {
        FlagBitsPrefix(8, a, b);
        TailConcat(7, rest, b);
      } else {
        TailConcat(m - 1, rest, b);
      }
    }
  }

  lemma {:induction false} FlagBitsPrefix(m: nat, a: seq<Chunk>, b: seq<Chunk>)
    requires m <= |a|
    ensures FlagBits(m, a + b) == FlagBits(m, a)
  {
    if m > 0 {
      assert (a + b)[1..] == a[1..] + b;
      FlagBitsPrefix(m - 1, a[1..], b);
    }
  }

  lemma {:induction false} PayloadsSnoc(chunks: seq<Chunk>, c: Chunk)
    ensures Payloads(chunks + [c]) == Payloads(chunks) + c.bytes
  {
    if chunks == [] {
      assert chunks + [c] == [c];
      assert Payloads([c]) == c.bytes + Payloads([]);
    } else {
      assert (chunks + [c])[1..] == chunks[1..] + [c];
      PayloadsSnoc(chunks[1..], c);
    }
  }

  lemma {:induction false} TailOfGroup(m: nat, chunks: seq<Chunk>)
    requires |chunks| <= m
    ensures Tail(m, chunks) == Payloads(chunks)
  {
    if chunks != [] {
      TailOfGroup(m - 1, chunks[1..]);
    }
  }

  lemma {:induction false} FlagBitsSnoc(m: nat, chunks: seq<Chunk>, c: Chunk)
    requires |chunks| < m
    ensures FlagBits(m, chunks + [c]) == FlagBits(m, chunks) + c.flag * Pow2(|chunks|)
  {
    if chunks == [] {
      assert chunks + [c] == [c];
      assert FlagBits(m - 1, []) == 0;
    } else {
      assert (chunks + [c])[1..] == chunks[1..] + [c];
      FlagBitsSnoc(m - 1, chunks[1..], c);
      DoubleRight(c.flag, Pow2(|chunks| - 1));
    }
  }

  lemma {:induction false} FlagBitsFit(m: nat, chunks: seq<Chunk>)
    requires Proper(chunks)
    ensures FlagBits(m, chunks) < Pow2(|chunks|) && FlagBits(m, chunks) < Pow2(m)
  {
    if m > 0 && chunks != [] {
      FlagBitsFit(m - 1, chunks[1..]);
    }
  }

  /** A group that is complete, or the unfinished last one, in its place. */
  lemma GroupDone(full: seq<Chunk>, group: seq<Chunk>)
    requires |full| % 8 == 0 && 0 < |group| <= 8
    ensures Encode(full + group) == Encode(full) + ([FlagBits(8, group)] + Payloads(group))
  {
    TailConcat(0, full, group);
    OneGroup(group);
  }

  lemma OneGroup(group: seq<Chunk>)
    requires 0 < |group| <= 8
    ensures Encode(group) == [FlagBits(8, group)] + Payloads(group)
  {
    TailOfGroup(7, group[1..]);
  }

  /** The encoder's flag register after the chunks of an unfinished group: a sentinel above the flags. */
  function Register(chunks: seq<Chunk>): nat
    requires |chunks| <= 8
  {
    (FlagBits(8, chunks) + 0xFF00) * Pow2(8 - |chunks|)
  }

  /** Entering a flag at the top and shifting extends the register by one chunk; it drops below the
      sentinel with the eighth. */
  lemma RegisterStep(chunks: seq<Chunk>, c: Chunk)
    requires |chunks| < 8 && Proper(chunks) && c.flag <= 1
    ensures Or(Shl(c.flag, 7), Shr(Register(chunks), 1)) == Register(chunks + [c])
    ensures Register(chunks + [c]) < 0x10000 <==> |chunks| == 7
  {
    var j, f := |chunks|, FlagBits(8, chunks);
    FlagBitsSnoc(8, chunks, c);
    FlagBitsFit(8, chunks);
    RegisterHalf(f + 0xFF00, 7 - j);
    RegisterUnion(f, j, c.flag);
  }

  lemma RegisterHalf(x: nat, e: nat)
    ensures Shr(x * Pow2(e + 1), 1) == x * Pow2(e)
  {
    ShrDivides(x * Pow2(e + 1), 1);
    DoubleRight(x, Pow2(e));
  }

  lemma PowerPairs(j: nat)
    requires j < 8
    ensures Pow2(j) * Pow2(7 - j) == 0x80
  {
    Powers();
    assert j == 0 || j == 1 || j == 2 || j == 3 || j == 4 || j == 5 || j == 6 || j == 7;
  }

  /** The new flag goes to bit 7, which the shifted register leaves free. */
  lemma RegisterUnion(f: nat, j: nat, flag: nat)
    requires j < 8 && f < Pow2(j) && flag <= 1
    ensures Or(Shl(flag, 7), (f + 0xFF00) * Pow2(7 - j)) == (f + flag * Pow2(j) + 0xFF00) * Pow2(7 - j)
    ensures (f + flag * Pow2(j) + 0xFF00) * Pow2(7 - j) < 0x10000 <==> j == 7
  {
    Powers();
    PowerPairs(j);
    var p, q := Pow2(7 - j), Pow2(j);
    var low, even := f * p, 2 * (0xFF * p);
    assert low < q * p by { Below(f, q, p); }
    assert (f + 0xFF00) * p == even * 0x80 + low by { Split(f, p); }
    assert (f + flag * q + 0xFF00) * p == (even + flag) * 0x80 + low by {
      Distribute(f, flag, q, p);
    }
    OrAcross(even, flag, low);
    if j < 7 {
      assert p == 2 * Pow2(6 - j);
      assert even >= 0x3FC;
    }
  }

  lemma Below(f: nat, q: nat, p: nat)
    requires f < q && p >= 1
    ensures f * p < q * p
  {
  }

  lemma Split(f: nat, p: nat)
    ensures (f + 0xFF00) * p == 2 * (0xFF * p) * 0x80 + f * p
  {
  }

  lemma Distribute(f: nat, flag: nat, q: nat, p: nat)
    requires flag <= 1 && q * p == 0x80
    ensures (f + flag * q + 0xFF00) * p == (f + 0xFF00) * p + flag * 0x80
    ensures (f + 0xFF00) * p == 2 * (0xFF * p) * 0x80 + f * p
  {
  }

  /** A union of disjoint parts: even multiples of 0x80 and a rest below it, with bit 7. */
  lemma OrAcross(even: nat, flag: nat, low: nat)
    requires even % 2 == 0 && flag <= 1 && low < 0x80
    ensures Or(Shl(flag, 7), even * 0x80 + low) == (even + flag) * 0x80 + low
  {
    Powers();
    OrShift(flag, even, low, 7);
    if flag == 1 {
      OrHalves(1, even);
    }
  }

  lemma {:induction false} OrShift(a: nat, b: nat, y: nat, k: nat)
    requires y < Pow2(k)
    ensures Or(a * Pow2(k), b * Pow2(k) + y) == Or(a, b) * Pow2(k) + y
    decreases k
  {
    hide Or;
    if k > 0 {
      var p := Pow2(k - 1);
      var ap, bp, op := a * p, b * p, Or(a, b) * p;
      DoubleRight(a, p);
      DoubleRight(b, p);
      DoubleRight(Or(a, b), p);
      OrShift(a, b, y / 2, k - 1);
      OrHalves(2 * ap, 2 * bp + y);
      assert (2 * bp + y) / 2 == bp + y / 2;
    }
  }

  lemma LowByte(f: nat)
    requires f < 0x100
    ensures And(f + 0xFF00, 0xFF) == f
  {
    Powers();
    AndLowMask(f + 0xFF00, 8);
    DivModUnique(f + 0xFF00, 0x100, 0xFF, f);
  }

  /** Shifting the sentinel out pads the unfinished flag byte with zeros. */
  method PadFlags(start: nat, ghost chunks: seq<Chunk>) returns (flags: nat)
    requires |chunks| < 8 && Proper(chunks) && start == Register(chunks)
    ensures flags == FlagBits(8, chunks) + 0xFF00
  {
    FlagBitsFit(8, chunks);
    Powers();
    flags := start;
    ghost var e: nat, base := 8 - |chunks|, FlagBits(8, chunks) + 0xFF00;
    assert 0xFF00 <= base < 0x10000;
    while flags >= 0x10000
      invariant flags == base * Pow2(e)
      decreases e
    {
      RegisterHalf(base, e - 1);
      flags := Shr(flags, 1);
      e := e - 1;
    }
    if e > 0 {
      StillHigh(base, e);
      assert false;
    }
  }

  lemma StillHigh(base: nat, e: nat)
    requires base >= 0xFF00 && e > 0
    ensures base * Pow2(e) >= 0x10000
  {
    DoubleRight(base, Pow2(e - 1));
    Below(0xFEFF, base, Pow2(e - 1));
  }
}
