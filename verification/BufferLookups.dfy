/** The lookup macros of Cython/Compiler/Buffer.py: the definitions the generator writes once per access mode
    and number of dimensions, and the addresses they compute. */
module BufferLookups {
  import opened BufferChecks
  import Bits

  datatype Mode = Full | Strided | CContig | FortranContig

  /** `i_k * s_k` bytes, or `i_k` elements. */
  datatype Term = Scaled(k: nat) | Element(k: nat)

  /** An offset from the buffer, or the inline function that follows suboffsets. */
  datatype Macro = Offset(terms: seq<Term>) | Follow(nd: nat)

  function StridedTerms(from: nat, nd: nat): (r: seq<Term>)
    requires from <= nd
    ensures |r| == nd - from && forall k :: 0 <= k < |r| ==> r[k] == Scaled(from + k)
    decreases nd - from
  {
    if from == nd then [] else [Scaled(from)] + StridedTerms(from + 1, nd)
  }

  /** The definition written for a mode; with one dimension, the contiguous ones just index. */
  function Definition(mode: Mode, nd: nat): Macro
    requires nd > 0
  {
    match mode
    case Full => Follow(nd)
    case Strided => Offset(StridedTerms(0, nd))
    case CContig => Offset(StridedTerms(0, nd - 1) + [Element(nd - 1)])
    case FortranContig => Offset(StridedTerms(1, nd) + [Element(0)])
  }

  datatype Lookup = Lookup(mode: Mode, nd: nat)

  datatype Defined = Defined(name: Lookup, macro: Macro)

  /** The state shared by all accesses of a module: which macros there are, and their definitions as written. */
  class GlobalState {
    var utilityCodes: set<Lookup>
    var definitions: seq<Defined>

    /** Exactly one definition for each name in use, and the right one. */
    ghost predicate Valid()
      reads this
    {
      && (forall d <- definitions :: d.name in utilityCodes && d.name.nd > 0 && d.macro == Definition(d.name.mode, d.name.nd))
      && (forall n <- utilityCodes :: exists k :: 0 <= k < |definitions| && definitions[k].name == n)
      && (forall a, b :: 0 <= a < b < |definitions| ==> definitions[a].name != definitions[b].name)
    }

    constructor ()
      ensures Valid() && utilityCodes == {}
    {
      utilityCodes, definitions := {}, [];
    }

    method GenerateBufferLookupCode(mode: Mode, nd: nat) returns (name: Lookup)
      requires Valid() && nd > 0
      modifies this
      ensures Valid() && name == Lookup(mode, nd) && utilityCodes == old(utilityCodes) + {name}
      ensures old(definitions) <= definitions
    {
      name := Lookup(mode, nd);
      if name !in utilityCodes {
        utilityCodes := utilityCodes + {name};
        definitions := definitions + [Defined(name, Definition(mode, nd))];
        assert definitions[|definitions| - 1].name == name;
        assert forall k :: 0 <= k < |old(definitions)| ==> definitions[k] == old(definitions)[k];
      }
    }
  }

  // ----- Addresses -----

  function TermValue(t: Term, idx: seq<int>, strides: seq<int>, itemsize: nat): int
    requires t.k < |idx| == |strides|
  {
    match t
    case Scaled(k) => idx[k] * strides[k]
    case Element(k) => idx[k] * itemsize
  }

  function Sum(terms: seq<Term>, idx: seq<int>, strides: seq<int>, itemsize: nat): int
    requires |idx| == |strides| && forall t <- terms :: t.k < |idx|
  {
    if terms == [] then 0 else TermValue(terms[0], idx, strides, itemsize) + Sum(terms[1..], idx, strides, itemsize)
  }

  /** `memory` gives the pointer stored at an address. */
  function Chase(ptr: int, idx: seq<int>, strides: seq<int>, suboffsets: seq<int>, memory: int -> int): int
    requires |idx| == |strides| == |suboffsets|
    decreases |idx|
  {
    if idx == [] then ptr
    else
      var ptr := ptr + strides[0] * idx[0];
      var ptr := if suboffsets[0] >= 0 then memory(ptr) + suboffsets[0] else ptr;
      Chase(ptr, idx[1..], strides[1..], suboffsets[1..], memory)
  }

  function Address(mode: Mode, buf: int, idx: seq<int>, strides: seq<int>, suboffsets: seq<int>, itemsize: nat,
                   memory: int -> int): int
    requires 0 < |idx| == |strides| == |suboffsets|
  {
    match Definition(mode, |idx|)
    case Offset(terms) => buf + Sum(terms, idx, strides, itemsize)
    case Follow(_) => Chase(buf, idx, strides, suboffsets, memory)
  }

  // ----- The modes agree -----

  lemma {:induction false} SumAdds(a: seq<Term>, b: seq<Term>, idx: seq<int>, strides: seq<int>, itemsize: nat)
    requires |idx| == |strides| && (forall t <- a :: t.k < |idx|) && forall t <- b :: t.k < |idx|
    ensures forall t <- a + b :: t.k < |idx|
    ensures Sum(a + b, idx, strides, itemsize) == Sum(a, idx, strides, itemsize) + Sum(b, idx, strides, itemsize)
  {
    if a == [] {
      assert a + b == b;
    } else {
      assert (a + b)[1..] == a[1..] + b;
      SumAdds(a[1..], b, idx, strides, itemsize);
    }
  }

  lemma SumOne(t: Term, idx: seq<int>, strides: seq<int>, itemsize: nat)
    requires t.k < |idx| == |strides|
    ensures Sum([t], idx, strides, itemsize) == TermValue(t, idx, strides, itemsize)
  {
    assert [t][1..] == [];
  }

  lemma CancelFactor(x: int, a: int, b: int)
    ensures x * a == x * b <==> x == 0 || a == b
  {
    if x != 0 && a < b {
      assert x * (b - a) != 0;
    } else if x != 0 && b < a {
      assert x * (a - b) != 0;
    }
  }

  /** The C-contiguous macro finds the strided address exactly when the last stride is the item size (or is not used). */
  lemma CContigIsStrided(buf: int, idx: seq<int>, strides: seq<int>, subs: seq<int>, itemsize: nat, memory: int -> int)
    requires 0 < |idx| == |strides| == |subs|
    ensures Address(CContig, buf, idx, strides, subs, itemsize, memory) ==
            Address(Strided, buf, idx, strides, subs, itemsize, memory)
            <==> idx[|idx| - 1] == 0 || strides[|idx| - 1] == itemsize
  {
    var nd := |idx|;
    var front, last := StridedTerms(0, nd - 1), Scaled(nd - 1);
    assert StridedTerms(0, nd) == front + [last];
    SumAdds(front, [last], idx, strides, itemsize);
    SumAdds(front, [Element(nd - 1)], idx, strides, itemsize);
    SumOne(last, idx, strides, itemsize);
    SumOne(Element(nd - 1), idx, strides, itemsize);
    CancelFactor(idx[nd - 1], strides[nd - 1], itemsize);
  }

  lemma FortranIsStrided(buf: int, idx: seq<int>, strides: seq<int>, subs: seq<int>, itemsize: nat, memory: int -> int)
    requires 0 < |idx| == |strides| == |subs|
    ensures Address(FortranContig, buf, idx, strides, subs, itemsize, memory) ==
            Address(Strided, buf, idx, strides, subs, itemsize, memory)
            <==> idx[0] == 0 || strides[0] == itemsize
  {
    var back := StridedTerms(1, |idx|);
    assert StridedTerms(0, |idx|) == [Scaled(0)] + back;
    SumAdds([Scaled(0)], back, idx, strides, itemsize);
    SumAdds(back, [Element(0)], idx, strides, itemsize);
    SumOne(Scaled(0), idx, strides, itemsize);
    SumOne(Element(0), idx, strides, itemsize);
    CancelFactor(idx[0], strides[0], itemsize);
  }

  /** The sum of index times stride. */
  function Dot(idx: seq<int>, strides: seq<int>): int
    requires |idx| == |strides|
  {
    if idx == [] then 0 else idx[0] * strides[0] + Dot(idx[1..], strides[1..])
  }

  lemma {:induction false} StridedIsDot(from: nat, idx: seq<int>, strides: seq<int>, itemsize: nat)
    requires from <= |idx| == |strides|
    ensures Sum(StridedTerms(from, |idx|), idx, strides, itemsize) == Dot(idx[from..], strides[from..])
    decreases |idx| - from
  {
    if from < |idx| {
      StridedIsDot(from + 1, idx, strides, itemsize);
      assert idx[from..][1..] == idx[from + 1..] && strides[from..][1..] == strides[from + 1..];
      assert StridedTerms(from, |idx|)[1..] == StridedTerms(from + 1, |idx|);
    } else {
      assert idx[from..] == [];
    }
  }

  lemma {:induction false} ChaseIsDot(ptr: int, idx: seq<int>, strides: seq<int>, subs: seq<int>, memory: int -> int)
    requires |idx| == |strides| == |subs| && forall o <- subs :: o < 0
    ensures Chase(ptr, idx, strides, subs, memory) == ptr + Dot(idx, strides)
    decreases |idx|
  {
    if idx != [] {
      assert subs[0] in subs && forall o <- subs[1..] :: o in subs;
      ChaseIsDot(ptr + strides[0] * idx[0], idx[1..], strides[1..], subs[1..], memory);
    }
  }

  lemma FullIsStrided(buf: int, idx: seq<int>, strides: seq<int>, subs: seq<int>, itemsize: nat, memory: int -> int)
    requires 0 < |idx| == |strides| == |subs| && forall o <- subs :: o < 0
    ensures Address(Full, buf, idx, strides, subs, itemsize, memory) ==
            Address(Strided, buf, idx, strides, subs, itemsize, memory) == buf + Dot(idx, strides)
  {
    ChaseIsDot(buf, idx, strides, subs, memory);
    StridedIsDot(0, idx, strides, itemsize);
    assert idx[0..] == idx && strides[0..] == strides;
  }

  /** An array of pointers to rows: the first suboffset is added behind the pointer, even if it is zero. */
  lemma RowsOfPointers(buf: int, idx: seq<int>, strides: seq<int>, subs: seq<int>, itemsize: nat, memory: int -> int)
    requires 0 < |idx| == |strides| == |subs| && subs[0] >= 0 && forall o <- subs[1..] :: o < 0
    ensures Address(Full, buf, idx, strides, subs, itemsize, memory) ==
            memory(buf + idx[0] * strides[0]) + subs[0] + Dot(idx[1..], strides[1..])
  {
    ChaseIsDot(memory(buf + strides[0] * idx[0]) + subs[0], idx[1..], strides[1..], subs[1..], memory);
  }

  // ----- Row-major buffers -----

  function Count(shape: seq<nat>): nat {
    if shape == [] then 1 else shape[0] * Count(shape[1..])
  }

  /** The last stride is the item size, every other one the size of what the next dimension spans. */
  predicate RowMajor(strides: seq<int>, shape: seq<nat>, itemsize: nat) {
    && |strides| == |shape|
    && (shape != [] ==> RowMajor(strides[1..], shape[1..], itemsize) && strides[0] == itemsize * Count(shape[1..]))
  }

  predicate Within(idx: seq<int>, shape: seq<nat>) {
    |idx| == |shape| && forall k :: 0 <= k < |idx| ==> 0 <= idx[k] < shape[k]
  }

  /** The number of the element at `idx` in row-major order. */
  function Rank(idx: seq<int>, shape: seq<nat>): (n: int)
    requires Within(idx, shape)
    ensures 0 <= n < Count(shape)
  {
    if idx == [] then 0
    else
      var n := Rank(idx[1..], shape[1..]);
      (Digit(idx[0], n, shape[0], Count(shape[1..])); idx[0] * Count(shape[1..]) + n)
  }

  lemma Commuted(i: int, c: int)
    ensures i * c == c * i
  {
  }

  lemma RowsFit(i: nat, d: nat, c: nat)
    requires i < d
    ensures 0 <= i * c && i * c + c <= d * c
  {
    Bits.MulStep(c, i, d);
    Commuted(i, c);
    Commuted(d, c);
    if i > 0 {
      Bits.MulStep(c, 0, i);
    }
  }

  lemma Digit(i: int, n: int, d: nat, c: nat)
    requires 0 <= i < d && 0 <= n < c
    ensures 0 <= i * c + n < d * c && (i * c + n) / c == i && (i * c + n) % c == n
  {
    RowsFit(i, d, c);
    Commuted(i, c);
    Bits.DivModUnique(i * c + n, c, i, n);
  }

  function Unrank(n: nat, shape: seq<nat>): (idx: seq<int>)
    requires n < Count(shape)
    ensures Within(idx, shape)
  {
    if shape == [] then []
    else
      var c := Count(shape[1..]);
      (Quotient(n, shape[0], c); [n / c] + Unrank(n % c, shape[1..]))
  }

  lemma Quotient(n: nat, d: nat, c: nat)
    requires n < d * c
    ensures c > 0 && 0 <= n / c < d && 0 <= n % c < c
  {
    if c > 0 {
      assert n == c * (n / c) + n % c;
      Monotone(n / c, d, c);
    }
  }

  lemma Monotone(a: int, b: int, c: nat)
    ensures a >= b ==> c * a >= b * c
  {
    if a >= b {
      assert c * (a - b) >= 0;
    }
  }

  /** Index tuples within the shape and element numbers determine each other. */
  lemma {:induction false} UnrankRank(idx: seq<int>, shape: seq<nat>)
    requires Within(idx, shape)
    ensures Unrank(Rank(idx, shape), shape) == idx
  {
    if idx != [] {
      UnrankRank(idx[1..], shape[1..]);
      Digit(idx[0], Rank(idx[1..], shape[1..]), shape[0], Count(shape[1..]));
    }
  }

  lemma UnrankSplit(n: nat, shape: seq<nat>)
    requires n < Count(shape) && shape != []
    ensures var c := Count(shape[1..]);
      && c > 0 && n % c < c
      && Unrank(n, shape)[0] == n / c && Unrank(n, shape)[1..] == Unrank(n % c, shape[1..])
  {
    Quotient(n, shape[0], Count(shape[1..]));
  }

  lemma RankSplit(idx: seq<int>, shape: seq<nat>)
    requires Within(idx, shape) && idx != []
    ensures Within(idx[1..], shape[1..]) && Rank(idx, shape) == idx[0] * Count(shape[1..]) + Rank(idx[1..], shape[1..])
  {
  }

  lemma Recombined(n: nat, c: nat)
    requires c > 0
    ensures n / c * c + n % c == n
  {
    Commuted(n / c, c);
  }

  lemma {:induction false} RankUnrank(n: nat, shape: seq<nat>)
    requires n < Count(shape)
    ensures Rank(Unrank(n, shape), shape) == n
  {
    if shape != [] {
      var c := Count(shape[1..]);
      Quotient(n, shape[0], c);
      RankUnrank(n % c, shape[1..]);
      UnrankSplit(n, shape);
      RankSplit(Unrank(n, shape), shape);
      Recombined(n, c);
    }
  }

  lemma {:induction false} RowMajorDot(idx: seq<int>, strides: seq<int>, shape: seq<nat>, itemsize: nat)
    requires Within(idx, shape) && RowMajor(strides, shape, itemsize)
    ensures Dot(idx, strides) == itemsize * Rank(idx, shape)
  {
    if idx != [] {
      RowMajorDot(idx[1..], strides[1..], shape[1..], itemsize);
      Distribute(itemsize, idx[0], Count(shape[1..]), Rank(idx[1..], shape[1..]));
    }
  }

  lemma Distribute(x: int, i: int, c: int, n: int)
    ensures x * (i * c + n) == i * (x * c) + x * n
  {
    assert i * (x * c) == x * (i * c);
  }

  lemma {:induction false} RowMajorLast(strides: seq<int>, shape: seq<nat>, itemsize: nat)
    requires RowMajor(strides, shape, itemsize) && shape != []
    ensures strides[|strides| - 1] == itemsize
  {
    if |shape| == 1 {
      assert Count(shape[1..]) == 1;
    } else {
      RowMajorLast(strides[1..], shape[1..], itemsize);
    }
  }

  /** In a row-major buffer the C-contiguous lookup of an index tuple inside the shape is the address of the element
      with that number. */
  lemma RowMajorAddress(buf: int, idx: seq<int>, strides: seq<int>, shape: seq<nat>, subs: seq<int>, itemsize: nat,
                        memory: int -> int)
    requires 0 < |idx| == |subs| && Within(idx, shape) && RowMajor(strides, shape, itemsize)
    ensures Address(CContig, buf, idx, strides, subs, itemsize, memory) == buf + itemsize * Rank(idx, shape)
  {
    RowMajorLast(strides, shape, itemsize);
    CContigIsStrided(buf, idx, strides, subs, itemsize, memory);
    StridedIsDot(0, idx, strides, itemsize);
    assert idx[0..] == idx && strides[0..] == strides;
    RowMajorDot(idx, strides, shape, itemsize);
  }

  /** Two tuples share an address only if they are the same. */
  lemma AddressesAreDistinct(buf: int, a: seq<int>, b: seq<int>, strides: seq<int>, shape: seq<nat>, subs: seq<int>,
                             itemsize: nat, memory: int -> int)
    requires 0 < |a| == |b| == |subs| && Within(a, shape) && Within(b, shape) && RowMajor(strides, shape, itemsize)
    requires itemsize > 0
    ensures a == b <==> Address(CContig, buf, a, strides, subs, itemsize, memory) ==
                        Address(CContig, buf, b, strides, subs, itemsize, memory)
  {
    RowMajorAddress(buf, a, strides, shape, subs, itemsize, memory);
    RowMajorAddress(buf, b, strides, shape, subs, itemsize, memory);
    CancelFactor(itemsize, Rank(a, shape), Rank(b, shape));
    UnrankRank(a, shape);
    UnrankRank(b, shape);
  }

  // ----- Checked accesses -----

  function Values(ixs: seq<Index>, vars: Vars): seq<int>
    requires forall k :: 0 <= k < |ixs| ==> ixs[k].cname in vars
  {
    seq(|ixs|, k requires 0 <= k < |ixs| => vars[ixs[k].cname])
  }

  /** When the generated checks let an access to a row-major buffer pass, the address is that of an element of it. */
  lemma CheckedAccess(ixs: seq<Index>, wraparound: bool, negativeIndices: bool, nogil: bool, failed: string, vars: Vars,
                      raised: Call, buf: int, strides: seq<int>, shape: seq<nat>, subs: seq<int>, itemsize: nat,
                      memory: int -> int)
    requires Ready(ixs, failed, vars) && 0 < |ixs| == |shape| == |subs| && RowMajor(strides, shape, itemsize)
    requires forall k :: 0 <= k < |ixs| ==> ixs[k].shape in vars && vars[ixs[k].shape] == shape[k]
    requires Run(LookupLines(ixs, true, wraparound, negativeIndices, nogil, failed), vars, raised).Done?
    ensures var vars' := Run(LookupLines(ixs, true, wraparound, negativeIndices, nogil, failed), vars, raised).vars;
            && (forall k :: 0 <= k < |ixs| ==> ixs[k].cname in vars')
            && Within(Values(ixs, vars'), shape)
            && var address := Address(CContig, buf, Values(ixs, vars'), strides, subs, itemsize, memory);
               exists n: nat :: n < Count(shape) && address == buf + itemsize * n
  {
    hide Run, LookupLines, Ready, Rank, Address;
    ChecksAreExact(ixs, wraparound, negativeIndices, nogil, failed, vars, raised);
    var vars' := Run(LookupLines(ixs, true, wraparound, negativeIndices, nogil, failed), vars, raised).vars;
    NamesApart(ixs, failed, vars);
    var wrap := wraparound && negativeIndices;
    forall k | 0 <= k < |ixs|
      ensures ixs[k].cname in vars' && 0 <= vars'[ixs[k].cname] < shape[k]
    {
      assert Inside(ixs[k], wrap, vars);
    }
    RowMajorAddress(buf, Values(ixs, vars'), strides, shape, subs, itemsize, memory);
  }

  lemma NamesApart(ixs: seq<Index>, failed: string, vars: Vars)
    requires Ready(ixs, failed, vars)
    ensures forall k :: 0 <= k < |ixs| ==> ixs[k].cname != failed && ixs[k].shape != failed && ixs[k] in ixs
  {
    forall k | 0 <= k < |ixs|
      ensures ixs[k].cname != failed && ixs[k].shape != failed
    {
      assert ixs[k].cname != ixs[k].shape;
    }
  }
}
