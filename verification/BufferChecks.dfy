/** The index checks that `put_buffer_lookup_code` of Cython/Compiler/Buffer.py writes before a buffer access:
    the generator, an interpreter for the C lines it writes, and what running them does. */
module BufferChecks {

  /** The C lines of the generator; the text each stands for is in the comment. */
  datatype Line =
    | Set(v: string, value: int)                                                  // v = value;
    | IfNegative(v: string)                                                       // if (v < 0) {
    | Add(v: string, w: string)                                                   // v += w;
    | IfNegativeSet(v: string, target: string, value: int)                        // if (v < 0) target = value;
    | Else                                                                        // } else
    | IfAtLeastSet(v: string, cast: bool, w: string, target: string, value: int)  // if (v >= [(size_t)]w) target = value;
    | IfFailed(v: string)                                                         // if (v != -1) {
    | Raise(nogil: bool, v: string)                                               // __Pyx_RaiseBufferIndexError(v);
    | GotoError                                                                   // goto error;
    | Close                                                                       // }
    | IfNegativeAdd(v: string, w: string)                                         // if (v < 0) v += w;

  // ----- Running the lines -----

  const HALF := 0x8000_0000_0000_0000

  type Vars = map<string, int>

  /** A call that raised an exception: which of the two functions it was, and the dimension passed to it. */
  datatype Call = Call(nogil: bool, dim: int)

  /** Falling off the end, leaving through the error label after a call, signed overflow, or a name or a nesting the
      lines do not provide for. */
  datatype Outcome = Done(vars: Vars) | Raised(call: Call) | Overflow | Stuck

  function AfterElse(lines: seq<Line>): (r: seq<Line>)
    ensures |r| <= |lines|
  {
    if lines == [] then [] else if lines[0].Else? then lines[1..] else AfterElse(lines[1..])
  }

  function AfterClose(lines: seq<Line>): (r: seq<Line>)
    ensures |r| <= |lines|
  {
    if lines == [] then [] else if lines[0].Close? then lines[1..] else AfterClose(lines[1..])
  }

  /** `raised` is the last call that raised. */
  function Run(lines: seq<Line>, vars: Vars, raised: Call): Outcome
    decreases |lines|
  {
    if lines == [] then Done(vars)
    else
      var rest := lines[1..];
      match lines[0]
      case Set(v, value) => Run(rest, vars[v := value], raised)
      case IfNegative(v) =>
        if v !in vars then Stuck
        else if vars[v] < 0 then Run(rest, vars, raised)
        else Run(AfterElse(rest), vars, raised)
      case Add(v, w) =>
        if v !in vars || w !in vars then Stuck
        else if !(-HALF <= vars[v] + vars[w] < HALF) then Overflow
        else Run(rest, vars[v := vars[v] + vars[w]], raised)
      case IfNegativeSet(v, target, value) =>
        if v !in vars then Stuck
        else Run(rest, if vars[v] < 0 then vars[target := value] else vars, raised)
      case Else => if rest == [] then Stuck else Run(rest[1..], vars, raised)
      case IfAtLeastSet(v, cast, w, target, value) =>
        if v !in vars || w !in vars then Stuck
        else
          var bound := if cast then vars[w] % (2 * HALF) else vars[w];
          Run(rest, if vars[v] >= bound then vars[target := value] else vars, raised)
      case IfFailed(v) =>
        if v !in vars then Stuck
        else if vars[v] != -1 then Run(rest, vars, raised)
        else Run(AfterClose(rest), vars, raised)
      case Raise(nogil, v) => if v !in vars then Stuck else Run(rest, vars, Call(nogil, vars[v]))
      case GotoError => Raised(raised)
      case Close => Run(rest, vars, raised)
      case IfNegativeAdd(v, w) =>
        if v !in vars || w !in vars then Stuck
        else if vars[v] >= 0 then Run(rest, vars, raised)
        else if !(-HALF <= vars[v] + vars[w] < HALF) then Overflow
        else Run(rest, vars[v := vars[v] + vars[w]], raised)
  }

  // ----- The generator -----

  /** One index per dimension: whether it is signed, its variable, and the variable of the shape. */
  datatype Index = Index(signed: bool, cname: string, shape: string)

  function CheckLines(ix: Index, dim: nat, failed: string, wrap: bool): seq<Line> {
    if !ix.signed then [IfAtLeastSet(ix.cname, true, ix.shape, failed, dim)]
    else if wrap then [IfNegative(ix.cname), Add(ix.cname, ix.shape), IfNegativeSet(ix.cname, failed, dim), Else,
                       IfAtLeastSet(ix.cname, false, ix.shape, failed, dim)]
    else [IfNegative(ix.cname), Set(failed, dim), Else, IfAtLeastSet(ix.cname, false, ix.shape, failed, dim)]
  }

  function AllChecks(ixs: seq<Index>, dim: nat, failed: string, wrap: bool): seq<Line> {
    if ixs == [] then [] else CheckLines(ixs[0], dim, failed, wrap) + AllChecks(ixs[1..], dim + 1, failed, wrap)
  }

  function FixLine(ix: Index): seq<Line> {
    if ix.signed then [IfNegativeAdd(ix.cname, ix.shape)] else []
  }

  function FixLines(ixs: seq<Index>): seq<Line> {
    if ixs == [] then [] else FixLine(ixs[0]) + FixLines(ixs[1..])
  }

  function Tail(nogil: bool, failed: string): seq<Line> {
    [IfFailed(failed), Raise(nogil, failed), GotoError, Close]
  }

  /** Everything written before the access; `failed` is the name of the temporary for the failing dimension. */
  function LookupLines(ixs: seq<Index>, boundscheck: bool, wraparound: bool, negativeIndices: bool, nogil: bool,
                       failed: string): seq<Line> {
    var wrap := wraparound && negativeIndices;
    if boundscheck then [Set(failed, -1)] + AllChecks(ixs, 0, failed, wrap) + Tail(nogil, failed)
    else if wrap then FixLines(ixs)
    else []
  }

  class CodeWriter {
    var lines: seq<Line>

    constructor ()
      ensures lines == []
    {
      lines := [];
    }

    method Putln(line: Line)
      modifies this
      ensures lines == old(lines) + [line]
    {
      lines := lines + [line];
    }

    method PutBufferLookupCode(ixs: seq<Index>, boundscheck: bool, wraparound: bool, negativeIndices: bool, nogil: bool,
                               failed: string)
      modifies this
      ensures lines == old(lines) + LookupLines(ixs, boundscheck, wraparound, negativeIndices, nogil, failed)
    {
      ghost var before := lines;
      var wrap := wraparound && negativeIndices;
      if boundscheck {
        Putln(Set(failed, -1));
        PutChecks(ixs, failed, wrap);
        Putln(IfFailed(failed));
        Putln(Raise(nogil, failed));
        Putln(GotoError);
        Putln(Close);
        assert lines == before + ([Set(failed, -1)] + AllChecks(ixs, 0, failed, wrap) + Tail(nogil, failed));
      } else if wrap {
        PutFixes(ixs);
      }
    }

    method PutChecks(ixs: seq<Index>, failed: string, wrap: bool)
      modifies this
      ensures lines == old(lines) + AllChecks(ixs, 0, failed, wrap)
    {
      hide CheckLines;
      for dim := 0 to |ixs|
        invariant lines + AllChecks(ixs[dim..], dim, failed, wrap) == old(lines) + AllChecks(ixs, 0, failed, wrap)
      {
        Shift(lines, CheckLines(ixs[dim], dim, failed, wrap), AllChecks(ixs[dim + 1..], dim + 1, failed, wrap));
        PutCheck(ixs[dim], dim, failed, wrap);
      }
    }

    method PutFixes(ixs: seq<Index>)
      modifies this
      ensures lines == old(lines) + FixLines(ixs)
    {
      for dim := 0 to |ixs|
        invariant lines + FixLines(ixs[dim..]) == old(lines) + FixLines(ixs)
      {
        Shift(lines, FixLine(ixs[dim]), FixLines(ixs[dim + 1..]));
        if ixs[dim].signed {
          Putln(IfNegativeAdd(ixs[dim].cname, ixs[dim].shape));
        }
      }
    }

    method PutCheck(ix: Index, dim: nat, failed: string, wrap: bool)
      modifies this
      ensures lines == old(lines) + CheckLines(ix, dim, failed, wrap)
    {
      if ix.signed {
        Putln(IfNegative(ix.cname));
        if wrap {
          Putln(Add(ix.cname, ix.shape));
          Putln(IfNegativeSet(ix.cname, failed, dim));
        } else {
          Putln(Set(failed, dim));
        }
        Putln(Else);
      }
      Putln(IfAtLeastSet(ix.cname, !ix.signed, ix.shape, failed, dim));
    }
  }

  lemma Shift(a: seq<Line>, b: seq<Line>, c: seq<Line>)
    ensures a + (b + c) == a + b + c
  {
  }

  // ----- What a check is for -----

  /** The value an index has after at most one wraparound. */
  function Wrapped(ix: Index, value: int, shape: int, wrap: bool): int {
    if ix.signed && wrap && value < 0 then value + shape else value
  }

  predicate InBounds(ix: Index, value: int, shape: int, wrap: bool) {
    0 <= Wrapped(ix, value, shape, wrap) < shape
  }

  /** Index variables and shapes have values of their C types, the names are told apart, and shapes are sizes. */
  predicate Ready(ixs: seq<Index>, failed: string, vars: Vars) {
    && (forall ix <- ixs :: ix.cname in vars && ix.shape in vars && 0 <= vars[ix.shape] < HALF)
    && (forall ix <- ixs :: if ix.signed then -HALF <= vars[ix.cname] < HALF else 0 <= vars[ix.cname] < 2 * HALF)
    && (forall a, b :: 0 <= a < |ixs| && 0 <= b < |ixs| ==> ixs[a].cname != ixs[b].shape && ixs[a].shape != failed)
    && (forall a :: 0 <= a < |ixs| ==> ixs[a].cname != failed)
    && (forall a, b :: 0 <= a < b < |ixs| ==> ixs[a].cname != ixs[b].cname)
  }

  function Effect(ix: Index, dim: nat, failed: string, wrap: bool, vars: Vars): Vars
    requires ix.cname in vars && ix.shape in vars
  {
    var vars' := vars[ix.cname := Wrapped(ix, vars[ix.cname], vars[ix.shape], wrap)];
    if InBounds(ix, vars[ix.cname], vars[ix.shape], wrap) then vars' else vars'[failed := dim]
  }

  lemma CheckRuns(ix: Index, dim: nat, failed: string, wrap: bool, rest: seq<Line>, vars: Vars, raised: Call)
    requires Ready([ix], failed, vars)
    ensures ix.cname in vars && ix.shape in vars
    ensures Run(CheckLines(ix, dim, failed, wrap) + rest, vars, raised) ==
            Run(rest, Effect(ix, dim, failed, wrap, vars), raised)
  {
    assert ix in [ix] && [ix][0] == ix;
    if !ix.signed {
      assert vars[ix.cname := vars[ix.cname]] == vars;
      assert (CheckLines(ix, dim, failed, wrap) + rest)[1..] == rest;
    } else if wrap {
      WrappingCheckRuns(ix, dim, failed, rest, vars, raised);
    } else {
      PlainCheckRuns(ix, dim, failed, rest, vars, raised);
    }
  }

  lemma WrappingCheckRuns(ix: Index, dim: nat, failed: string, rest: seq<Line>, vars: Vars, raised: Call)
    requires ix.cname in vars && ix.shape in vars && ix.signed && ix.cname != ix.shape && failed != ix.cname
    requires -HALF <= vars[ix.cname] < HALF && 0 <= vars[ix.shape] < HALF
    ensures Run(CheckLines(ix, dim, failed, true) + rest, vars, raised) ==
            Run(rest, Effect(ix, dim, failed, true, vars), raised)
  {
    var l0 := CheckLines(ix, dim, failed, true) + rest;
    var l1, l2, l3, l4 := l0[1..], l0[2..], l0[3..], l0[4..];
    assert l1[1..] == l2 && l2[1..] == l3 && l3[1..] == l4 && l4[1..] == rest;
    if vars[ix.cname] < 0 {
      var v1 := vars[ix.cname := vars[ix.cname] + vars[ix.shape]];
      var v2 := if v1[ix.cname] < 0 then v1[failed := dim] else v1;
      assert Run(l0, vars, raised) == Run(l1, vars, raised) == Run(l2, v1, raised);
      assert Run(l2, v1, raised) == Run(l3, v2, raised) == Run(rest, v2, raised);
    } else {
      assert vars[ix.cname := vars[ix.cname]] == vars;
      assert AfterElse(l1) == AfterElse(l2) == AfterElse(l3) == l4;
      assert Run(l0, vars, raised) == Run(l4, vars, raised);
    }
  }

  lemma PlainCheckRuns(ix: Index, dim: nat, failed: string, rest: seq<Line>, vars: Vars, raised: Call)
    requires ix.cname in vars && ix.shape in vars && ix.signed && ix.cname != ix.shape && failed != ix.cname
    requires -HALF <= vars[ix.cname] < HALF && 0 <= vars[ix.shape] < HALF
    ensures Run(CheckLines(ix, dim, failed, false) + rest, vars, raised) ==
            Run(rest, Effect(ix, dim, failed, false, vars), raised)
  {
    var l0 := CheckLines(ix, dim, failed, false) + rest;
    var l1, l2, l3 := l0[1..], l0[2..], l0[3..];
    assert l1[1..] == l2 && l2[1..] == l3 && l3[1..] == rest;
    assert vars[ix.cname := vars[ix.cname]] == vars;
    if vars[ix.cname] < 0 {
      assert Run(l0, vars, raised) == Run(l1, vars, raised) == Run(l2, vars[failed := dim], raised);
    } else {
      assert AfterElse(l1) == AfterElse(l2) == l3;
      assert Run(l0, vars, raised) == Run(l3, vars, raised);
    }
  }

  function Effects(ixs: seq<Index>, dim: nat, failed: string, wrap: bool, vars: Vars): Vars
    requires Ready(ixs, failed, vars)
    decreases |ixs|
  {
    if ixs == [] then vars
    else
      EffectKeepsReady(ixs, dim, failed, wrap, vars);
      Effects(ixs[1..], dim + 1, failed, wrap, Effect(ixs[0], dim, failed, wrap, vars))
  }

  lemma EffectKeepsReady(ixs: seq<Index>, dim: nat, failed: string, wrap: bool, vars: Vars)
    requires ixs != [] && Ready(ixs, failed, vars)
    ensures ixs[0].cname in vars && ixs[0].shape in vars
    ensures Ready(ixs[1..], failed, Effect(ixs[0], dim, failed, wrap, vars))
    ensures Ready([ixs[0]], failed, vars)
  {
    assert ixs[0] in ixs;
    var vars', rest := Effect(ixs[0], dim, failed, wrap, vars), ixs[1..];
    forall k | 0 <= k < |rest|
      ensures rest[k].cname in vars' && vars'[rest[k].cname] == vars[ixs[k + 1].cname]
      ensures rest[k].shape in vars' && vars'[rest[k].shape] == vars[ixs[k + 1].shape]
    {
      assert rest[k] == ixs[k + 1] && ixs[k + 1] in ixs;
    }
  }

  lemma {:induction false} ChecksRun(ixs: seq<Index>, dim: nat, failed: string, wrap: bool, rest: seq<Line>, vars: Vars,
                                     raised: Call)
    requires Ready(ixs, failed, vars)
    ensures Run(AllChecks(ixs, dim, failed, wrap) + rest, vars, raised) ==
            Run(rest, Effects(ixs, dim, failed, wrap, vars), raised)
    decreases |ixs|
  {
    hide Run, CheckLines, Effect, Ready;
    if ixs == [] {
      assert [] + rest == rest;
    } else {
      EffectKeepsReady(ixs, dim, failed, wrap, vars);
      var more := AllChecks(ixs[1..], dim + 1, failed, wrap);
      Shift(CheckLines(ixs[0], dim, failed, wrap), more, rest);
      CheckRuns(ixs[0], dim, failed, wrap, more + rest, vars, raised);
      ChecksRun(ixs[1..], dim + 1, failed, wrap, rest, Effect(ixs[0], dim, failed, wrap, vars), raised);
    }
  }

  predicate Inside(ix: Index, wrap: bool, vars: Vars) {
    ix.cname in vars && ix.shape in vars && InBounds(ix, vars[ix.cname], vars[ix.shape], wrap)
  }

  /** `f` is the last dimension, counted from `dim`, with an index out of bounds, or `none` if there is none. */
  ghost predicate LastOutside(ixs: seq<Index>, dim: nat, wrap: bool, vars: Vars, none: int, f: int) {
    || (f == none && forall ix <- ixs :: Inside(ix, wrap, vars))
    || (dim <= f < dim + |ixs| && !Inside(ixs[f - dim], wrap, vars) &&
        forall k :: f - dim < k < |ixs| ==> Inside(ixs[k], wrap, vars))
  }

  /** Every index variable has its value after one wraparound, and nothing but those and `temp` has changed. */
  ghost predicate WrappedOnly(ixs: seq<Index>, wrap: bool, temp: string, vars: Vars, vars': Vars)
    requires forall k :: 0 <= k < |ixs| ==> ixs[k].cname in vars && ixs[k].shape in vars
  {
    && vars'.Keys == vars.Keys
    && (forall k :: 0 <= k < |ixs| ==>
          vars'[ixs[k].cname] == Wrapped(ixs[k], vars[ixs[k].cname], vars[ixs[k].shape], wrap))
    && forall v :: v in vars && v != temp && (forall k :: 0 <= k < |ixs| ==> v != ixs[k].cname) ==> vars'[v] == vars[v]
  }

  lemma WrappedMore(ixs: seq<Index>, wrap: bool, failed: string, vars: Vars, vars': Vars, r: Vars)
    requires ixs != [] && Ready(ixs, failed, vars)
    requires forall k :: 0 <= k < |ixs| ==> ixs[k].cname in vars && ixs[k].shape in vars
    requires var one := vars[ixs[0].cname := Wrapped(ixs[0], vars[ixs[0].cname], vars[ixs[0].shape], wrap)];
             vars' == one || (failed in vars && failed in vars' && vars' == one[failed := vars'[failed]])
    requires forall k :: 0 <= k < |ixs[1..]| ==> ixs[1..][k].cname in vars' && ixs[1..][k].shape in vars'
    requires WrappedOnly(ixs[1..], wrap, failed, vars', r)
    ensures WrappedOnly(ixs, wrap, failed, vars, r)
  {
    var rest := ixs[1..];
    forall k | 0 <= k < |ixs|
      ensures r[ixs[k].cname] == Wrapped(ixs[k], vars[ixs[k].cname], vars[ixs[k].shape], wrap)
    {
      if k > 0 {
        assert rest[k - 1] == ixs[k];
      } else {
        assert forall j :: 0 <= j < |rest| ==> rest[j] == ixs[j + 1];
      }
    }
    forall v | v in vars && v != failed && forall k :: 0 <= k < |ixs| ==> v != ixs[k].cname
      ensures r[v] == vars[v]
    {
      assert forall j :: 0 <= j < |rest| ==> rest[j] == ixs[j + 1];
    }
  }

  /** All checks together: every index is wrapped and no other variable touched but `failed`. */
  lemma {:induction false} EffectsWrap(ixs: seq<Index>, dim: nat, failed: string, wrap: bool, vars: Vars)
    requires Ready(ixs, failed, vars) && failed in vars
    requires forall k :: 0 <= k < |ixs| ==> ixs[k].cname in vars && ixs[k].shape in vars
    ensures WrappedOnly(ixs, wrap, failed, vars, Effects(ixs, dim, failed, wrap, vars))
    decreases |ixs|
  {
    hide WrappedOnly, Ready;
    if ixs == [] {
      WrappedNothing(wrap, failed, vars);
    } else {
      EffectKeepsReady(ixs, dim, failed, wrap, vars);
      var vars' := Effect(ixs[0], dim, failed, wrap, vars);
      ReadyAt(ixs[1..], failed, vars');
      EffectsWrap(ixs[1..], dim + 1, failed, wrap, vars');
      WrappedMore(ixs, wrap, failed, vars, vars', Effects(ixs[1..], dim + 1, failed, wrap, vars'));
    }
  }

  lemma WrappedNothing(wrap: bool, failed: string, vars: Vars)
    ensures WrappedOnly([], wrap, failed, vars, vars)
  {
  }

  lemma {:induction false} EffectsReport(ixs: seq<Index>, dim: nat, failed: string, wrap: bool, vars: Vars)
    requires Ready(ixs, failed, vars) && failed in vars
    ensures failed in Effects(ixs, dim, failed, wrap, vars)
    ensures LastOutside(ixs, dim, wrap, vars, vars[failed], Effects(ixs, dim, failed, wrap, vars)[failed])
    decreases |ixs|
  {
    if ixs != [] {
      EffectKeepsReady(ixs, dim, failed, wrap, vars);
      var vars', rest := Effect(ixs[0], dim, failed, wrap, vars), ixs[1..];
      EffectsReport(rest, dim + 1, failed, wrap, vars');
      InsideStays(ixs, dim, failed, wrap, vars);
      LastOutsideMore(ixs, dim, wrap, vars, vars', vars[failed], vars'[failed],
                      Effects(rest, dim + 1, failed, wrap, vars')[failed]);
    }
  }

  lemma InsideStays(ixs: seq<Index>, dim: nat, failed: string, wrap: bool, vars: Vars)
    requires ixs != [] && Ready(ixs, failed, vars) && ixs[0].cname in vars && ixs[0].shape in vars
    ensures forall k :: 0 < k < |ixs| ==>
              Inside(ixs[k], wrap, Effect(ixs[0], dim, failed, wrap, vars)) == Inside(ixs[k], wrap, vars)
  {
    var vars' := Effect(ixs[0], dim, failed, wrap, vars);
    forall k | 0 < k < |ixs|
      ensures Inside(ixs[k], wrap, vars') == Inside(ixs[k], wrap, vars)
    {
      assert ixs[k] in ixs;
      assert vars'[ixs[k].cname] == vars[ixs[k].cname] && vars'[ixs[k].shape] == vars[ixs[k].shape];
    }
  }

  lemma LastOutsideMore(ixs: seq<Index>, dim: nat, wrap: bool, vars: Vars, vars': Vars, none: int, none': int, f: int)
    requires ixs != [] && none' == (if Inside(ixs[0], wrap, vars) then none else dim)
    requires forall k :: 0 < k < |ixs| ==> Inside(ixs[k], wrap, vars') == Inside(ixs[k], wrap, vars)
    requires LastOutside(ixs[1..], dim + 1, wrap, vars', none', f)
    ensures LastOutside(ixs, dim, wrap, vars, none, f)
  {
    hide Inside;
    var rest := ixs[1..];
    assert forall k :: 0 < k < |ixs| ==> ixs[k] == rest[k - 1];
    if f == none' && forall ix <- rest :: Inside(ix, wrap, vars') {
      assert forall k :: 0 < k < |ixs| ==> ixs[k] in rest;
    } else {
      assert rest[f - (dim + 1)] == ixs[f - dim];
      forall k | f - dim < k < |ixs|
        ensures Inside(ixs[k], wrap, vars)
      {
        assert rest[k - 1] == ixs[k];
      }
    }
  }

  // ----- Main results -----

  lemma ReadyAt(ixs: seq<Index>, failed: string, vars: Vars)
    requires Ready(ixs, failed, vars)
    ensures forall k :: 0 <= k < |ixs| ==> ixs[k].cname in vars && ixs[k].shape in vars
    ensures Ready(ixs, failed, vars[failed := -1])
  {
    forall k | 0 <= k < |ixs|
      ensures ixs[k].cname in vars && ixs[k].shape in vars
    {
      assert ixs[k] in ixs;
    }
  }

  /** The generated checks pass exactly when every index, after one wraparound where that is on, is inside its
      dimension; otherwise the error is raised for the last dimension that is not.  No addition overflows. */
  lemma ChecksAreExact(ixs: seq<Index>, wraparound: bool, negativeIndices: bool, nogil: bool, failed: string, vars: Vars,
                       raised: Call)
    requires Ready(ixs, failed, vars)
    ensures forall k :: 0 <= k < |ixs| ==> ixs[k].cname in vars && ixs[k].shape in vars
    ensures var wrap := wraparound && negativeIndices;
            var r := Run(LookupLines(ixs, true, wraparound, negativeIndices, nogil, failed), vars, raised);
            if forall ix <- ixs :: Inside(ix, wrap, vars) then
              r.Done? && r.vars.Keys == vars.Keys + {failed} &&
              WrappedOnly(ixs, wrap, failed, vars[failed := -1], r.vars) && r.vars[failed] == -1
            else
              r.Raised? && r.call.nogil == nogil && 0 <= r.call.dim < |ixs| && !Inside(ixs[r.call.dim], wrap, vars) &&
              forall k :: r.call.dim < k < |ixs| ==> Inside(ixs[k], wrap, vars)
  {
    hide CheckLines, AllChecks, Effects, Inside, Ready;
    var wrap, start := wraparound && negativeIndices, vars[failed := -1];
    var tail, lines := Tail(nogil, failed), LookupLines(ixs, true, wraparound, negativeIndices, nogil, failed);
    ReadyAt(ixs, failed, vars);
    ReadyAt(ixs, failed, start);
    InsideSame(ixs, wrap, failed, vars);
    assert lines[1..] == AllChecks(ixs, 0, failed, wrap) + tail;
    assert lines[0] == Set(failed, -1);
    ChecksRun(ixs, 0, failed, wrap, tail, start, raised);
    EffectsWrap(ixs, 0, failed, wrap, start);
    EffectsReport(ixs, 0, failed, wrap, start);
    TailRuns(nogil, failed, Effects(ixs, 0, failed, wrap, start), raised);
  }

  lemma TailRuns(nogil: bool, failed: string, vars: Vars, raised: Call)
    requires failed in vars
    ensures Run(Tail(nogil, failed), vars, raised) == if vars[failed] == -1 then Done(vars) else Raised(Call(nogil, vars[failed]))
  {
    var l0 := Tail(nogil, failed);
    var l1, l2, l3 := l0[1..], l0[2..], l0[3..];
    assert l1[1..] == l2 && l2[1..] == l3 && l3[1..] == [];
    assert AfterClose(l1) == AfterClose(l2) == AfterClose(l3) == [];
    if vars[failed] != -1 {
      assert Run(l0, vars, raised) == Run(l1, vars, raised) == Run(l2, vars, Call(nogil, vars[failed]));
    }
  }

  lemma InsideSame(ixs: seq<Index>, wrap: bool, failed: string, vars: Vars)
    requires Ready(ixs, failed, vars)
    ensures forall k :: 0 <= k < |ixs| ==> Inside(ixs[k], wrap, vars[failed := -1]) == Inside(ixs[k], wrap, vars)
    ensures (forall ix <- ixs :: Inside(ix, wrap, vars[failed := -1])) <==> (forall ix <- ixs :: Inside(ix, wrap, vars))
  {
    forall k | 0 <= k < |ixs|
      ensures Inside(ixs[k], wrap, vars[failed := -1]) == Inside(ixs[k], wrap, vars)
    {
      assert ixs[k] in ixs;
    }
  }

  /** Without bounds checks, negative signed indices are wrapped once and nothing else happens. */
  lemma UncheckedWraps(ixs: seq<Index>, nogil: bool, failed: string, vars: Vars, raised: Call)
    requires Ready(ixs, failed, vars)
    ensures forall k :: 0 <= k < |ixs| ==> ixs[k].cname in vars && ixs[k].shape in vars
    ensures var r := Run(LookupLines(ixs, false, true, true, nogil, failed), vars, raised);
            r.Done? && WrappedOnly(ixs, true, failed, vars, r.vars)
  {
    ReadyAt(ixs, failed, vars);
    FixesRun(ixs, failed, vars, raised);
  }

  lemma {:induction false} FixesRun(ixs: seq<Index>, failed: string, vars: Vars, raised: Call)
    requires Ready(ixs, failed, vars)
    requires forall k :: 0 <= k < |ixs| ==> ixs[k].cname in vars && ixs[k].shape in vars
    ensures var r := Run(FixLines(ixs), vars, raised); r.Done? && WrappedOnly(ixs, true, failed, vars, r.vars)
    decreases |ixs|
  {
    hide Run, Ready, WrappedOnly, FixLine;
    if ixs == [] {
      NothingRuns(vars, raised);
      WrappedNothing(true, failed, vars);
    } else {
      var vars' := vars[ixs[0].cname := Wrapped(ixs[0], vars[ixs[0].cname], vars[ixs[0].shape], true)];
      FixKeepsReady(ixs, failed, vars);
      FixRuns(ixs[0], failed, FixLines(ixs[1..]), vars, raised);
      FixesRun(ixs[1..], failed, vars', raised);
      WrappedMore(ixs, true, failed, vars, vars', Run(FixLines(ixs), vars, raised).vars);
    }
  }

  lemma NothingRuns(vars: Vars, raised: Call)
    ensures Run([], vars, raised) == Done(vars)
  {
  }

  lemma FixRuns(ix: Index, failed: string, rest: seq<Line>, vars: Vars, raised: Call)
    requires Ready([ix], failed, vars) && ix.cname in vars && ix.shape in vars
    ensures Run(FixLine(ix) + rest, vars, raised) ==
            Run(rest, vars[ix.cname := Wrapped(ix, vars[ix.cname], vars[ix.shape], true)], raised)
  {
    assert ix in [ix] && vars[ix.cname := vars[ix.cname]] == vars;
    if ix.signed {
      assert (FixLine(ix) + rest)[1..] == rest;
    } else {
      assert FixLine(ix) + rest == rest;
    }
  }

  lemma FixKeepsReady(ixs: seq<Index>, failed: string, vars: Vars)
    requires ixs != [] && Ready(ixs, failed, vars) && ixs[0].cname in vars && ixs[0].shape in vars
    ensures var vars' := vars[ixs[0].cname := Wrapped(ixs[0], vars[ixs[0].cname], vars[ixs[0].shape], true)];
            && Ready(ixs[1..], failed, vars') && Ready([ixs[0]], failed, vars)
            && forall k :: 0 <= k < |ixs[1..]| ==> ixs[1..][k].cname in vars' && ixs[1..][k].shape in vars'
  {
    EffectKeepsReady(ixs, 0, failed, true, vars);
    assert forall k :: 0 <= k < |ixs[1..]| ==> ixs[1..][k] == ixs[k + 1] && ixs[1..][k] in ixs;
  }
}
