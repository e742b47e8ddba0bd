/** Error reporting of Cython/Compiler/Errors.py: a stack of frames that hold errors back, a sink that takes
    each error once, and an echo that repeats no message line. */
module HeldErrors {

  /** An error object and the line it is printed as; different errors may have the same line. */
  datatype Error = Error(id: nat, line: string)

  datatype Option<+T> = None | Some(value: T)

  /** `reported` are the errors marked as reported, `seen` the lines echoed since the process started. */
  datatype State = State(stack: seq<seq<Error>>, reported: set<Error>, count: nat, listing: Option<seq<string>>,
                         echo: Option<seq<string>>, seen: set<string>)
  {
    function Emit(e: Error): State {
      if e in reported then this
      else this.(reported := reported + {e}, count := count + 1,
                 listing := if listing.Some? then Some(listing.value + [e.line]) else None,
                 echo := if echo.Some? && e.line !in seen then Some(echo.value + [e.line]) else echo,
                 seen := if echo.Some? then seen + {e.line} else seen)
    }

    function Report(e: Error, useStack: bool): State {
      if stack != [] && useStack then this.(stack := stack[..|stack| - 1] + [stack[|stack| - 1] + [e]]) else Emit(e)
    }

    function Hold(): State {
      this.(stack := stack + [[]])
    }

    function ReportAll(es: seq<Error>): State
      decreases |es|
    {
      if es == [] then this else Report(es[0], true).ReportAll(es[1..])
    }

    function Release(ignore: bool): State
      requires stack != []
    {
      var popped := this.(stack := stack[..|stack| - 1]);
      if ignore then popped else popped.ReportAll(stack[|stack| - 1])
    }

    function EmitAll(es: seq<Error>): State
      decreases |es|
    {
      if es == [] then this else Emit(es[0]).EmitAll(es[1..])
    }
  }

  // ----- The class -----

  /** The thread's error state. */
  class Errors {
    var stack: seq<seq<Error>>
    var reported: set<Error>
    var count: nat
    var listing: Option<seq<string>>
    var echo: Option<seq<string>>
    var seen: set<string>

    function Current(): State
      reads this
    {
      State(stack, reported, count, listing, echo, seen)
    }

    constructor (listingFile: bool, echoToStderr: bool, seen: set<string>)
      ensures Current() == Start(listingFile, echoToStderr, seen)
    {
      stack, reported, count := [], {}, 0;
      listing, echo := if listingFile then Some([]) else None, if echoToStderr then Some([]) else None;
      this.seen := seen;
    }

    method ReportError(e: Error, useStack: bool)
      modifies this
      ensures Current() == old(Current()).Report(e, useStack)
    {
      if stack != [] && useStack {
        stack := stack[..|stack| - 1] + [stack[|stack| - 1] + [e]];
      } else {
        if e in reported {
          return;
        }
        reported := reported + {e};
        var line := e.line;
        if listing.Some? {
          listing := Some(listing.value + [line]);
        }
        if echo.Some? && line !in seen {
          seen := seen + {line};
          echo := Some(echo.value + [line]);
        }
        assert echo.Some? ==> old(seen) + {line} == seen;
        count := count + 1;
      }
    }

    method HoldErrors()
      modifies this
      ensures Current() == old(Current()).Hold()
    {
      stack := stack + [[]];
    }

    method ReleaseErrors(ignore: bool)
      requires stack != []
      modifies this
      ensures Current() == old(Current()).Release(ignore)
    {
      var held := stack[|stack| - 1];
      stack := stack[..|stack| - 1];
      ghost var popped := Current();
      if !ignore {
        for i := 0 to |held|
          invariant Current().ReportAll(held[i..]) == popped.ReportAll(held)
        {
          ReportError(held[i], true);
          assert held[i..][1..] == held[i + 1..];
        }
      }
    }

    /** A program's reporting behaviour, with each hold released by its `local_errors` block. */
    method Perform(actions: Actions)
      modifies this
      ensures Current() == Run(old(Current()), actions)
      decreases actions
    {
      match actions {
        case Done =>
        case Reporting(e, useStack, next) =>
          ReportError(e, useStack);
          Perform(next);
        case Local(body, ignore, next) =>
          HoldErrors();
          HoldRuns(Current(), body);
          Perform(body);
          ReleaseErrors(ignore);
          Perform(next);
      }
    }
  }

  // ----- Runs -----

  /** Reports and nested blocks that hold errors; `useStack` is off for errors that must not be held. */
  datatype Actions =
    | Done
    | Reporting(error: Error, useStack: bool, next: Actions)
    | Local(body: Actions, ignore: bool, next: Actions)

  function Run(s: State, actions: Actions): (t: State)
    ensures |t.stack| == |s.stack|
    decreases actions
  {
    match actions
    case Done => s
    case Reporting(e, useStack, next) => Run(s.Report(e, useStack), next)
    case Local(body, ignore, next) =>
      var t := Run(s.Hold(), body);
      (ReleasePops(t, ignore); Run(t.Release(ignore), next))
  }

  lemma HoldRuns(s: State, body: Actions)
    requires s.stack != []
    ensures Run(s, body).stack != []
  {
  }

  lemma {:induction false} ReportAllDepth(s: State, es: seq<Error>)
    ensures |s.ReportAll(es).stack| == |s.stack|
    decreases |es|
  {
    if es != [] {
      ReportAllDepth(s.Report(es[0], true), es[1..]);
    }
  }

  lemma ReleasePops(s: State, ignore: bool)
    requires s.stack != []
    ensures |s.Release(ignore).stack| == |s.stack| - 1
  {
    ReportAllDepth(s.(stack := s.stack[..|s.stack| - 1]), s.stack[|s.stack| - 1]);
  }

  // ----- What the runs come to -----

  /** The errors of a block that are held in its frame at the end: those in no ignored block of it. */
  function Kept(actions: Actions): seq<Error> {
    match actions
    case Done => []
    case Reporting(e, useStack, next) => (if useStack then [e] else []) + Kept(next)
    case Local(body, ignore, next) => (if ignore then [] else Kept(body)) + Kept(next)
  }

  /** The errors that go to the sink at once wherever they are reported. */
  function Unheld(actions: Actions): seq<Error> {
    match actions
    case Done => []
    case Reporting(e, useStack, next) => (if useStack then [] else [e]) + Unheld(next)
    case Local(body, ignore, next) => Unheld(body) + Unheld(next)
  }

  /** What reaches the sink outside all blocks, in order. */
  function Reaching(actions: Actions): seq<Error> {
    match actions
    case Done => []
    case Reporting(e, useStack, next) => [e] + Reaching(next)
    case Local(body, ignore, next) => Unheld(body) + (if ignore then [] else Kept(body)) + Reaching(next)
  }

  lemma {:induction false} EmitAllAppend(s: State, a: seq<Error>, b: seq<Error>)
    ensures s.EmitAll(a + b) == s.EmitAll(a).EmitAll(b)
    decreases |a|
  {
    if a == [] {
      assert a + b == b;
    } else {
      assert (a + b)[1..] == a[1..] + b;
      EmitAllAppend(s.Emit(a[0]), a[1..], b);
    }
  }

  lemma {:induction false} EmitAllStack(s: State, es: seq<Error>, stack: seq<seq<Error>>)
    ensures s.(stack := stack).EmitAll(es) == s.EmitAll(es).(stack := stack)
    ensures s.EmitAll(es).stack == s.stack
    decreases |es|
  {
    if es != [] {
      assert s.(stack := stack).Emit(es[0]) == s.Emit(es[0]).(stack := stack);
      EmitAllStack(s.Emit(es[0]), es[1..], stack);
    }
  }

  /** Releasing into an outer frame appends; with no outer frame the errors go to the sink. */
  lemma {:induction false} ReportAllIs(s: State, es: seq<Error>)
    ensures s.stack == [] ==> s.ReportAll(es) == s.EmitAll(es)
    ensures s.stack != [] ==>
              s.ReportAll(es) == s.(stack := s.stack[..|s.stack| - 1] + [s.stack[|s.stack| - 1] + es])
    decreases |es|
  {
    if es == [] {
      if s.stack != [] {
        assert s.stack[|s.stack| - 1] + [] == s.stack[|s.stack| - 1];
      }
    } else {
      var t := s.Report(es[0], true);
      ReportAllIs(t, es[1..]);
      if s.stack == [] {
        EmitAllStack(s, [es[0]], []);
      } else {
        var top := s.stack[|s.stack| - 1];
        assert top + [es[0]] + es[1..] == top + es;
        assert t.stack[..|t.stack| - 1] == s.stack[..|s.stack| - 1];
      }
    }
  }

  function Extend(stack: seq<seq<Error>>, es: seq<Error>): seq<seq<Error>>
    requires stack != []
  {
    stack[..|stack| - 1] + [stack[|stack| - 1] + es]
  }

  lemma ExtendTwice(stack: seq<seq<Error>>, a: seq<Error>, b: seq<Error>)
    requires stack != []
    ensures Extend(Extend(stack, a), b) == Extend(stack, a + b)
    ensures Extend(stack, []) == stack
  {
    assert stack[|stack| - 1] + a + b == stack[|stack| - 1] + (a + b);
    assert stack[|stack| - 1] + [] == stack[|stack| - 1];
  }

  /** A block inside a frame: what it keeps joins the frame, the rest goes straight to the sink. */
  lemma {:induction false} RunHeld(s: State, actions: Actions)
    requires s.stack != []
    ensures Run(s, actions) == s.EmitAll(Unheld(actions)).(stack := Extend(s.stack, Kept(actions)))
    decreases actions, 0
  {
    hide State.Emit;
    match actions
    case Done =>
      ExtendTwice(s.stack, [], []);
    case Reporting(e, useStack, next) =>
      var t := s.Report(e, useStack);
      EmitAllStack(s, [e], s.stack);
      RunHeld(t, next);
      if useStack {
        EmitAllStack(s, Unheld(next), t.stack);
        ExtendTwice(s.stack, [e], Kept(next));
        assert [] + Unheld(next) == Unheld(next);
      } else {
        EmitAllAppend(s, [e], Unheld(next));
        assert [] + Kept(next) == Kept(next);
      }
    case Local(body, ignore, next) =>
      BlockRuns(s, body, ignore);
      var t := Run(s.Hold(), body).Release(ignore);
      var kept := if ignore then [] else Kept(body);
      RunHeld(t, next);
      EmitAllStack(s.EmitAll(Unheld(body)), Unheld(next), t.stack);
      EmitAllStack(s, Unheld(body), s.stack);
      EmitAllAppend(s, Unheld(body), Unheld(next));
      ExtendTwice(s.stack, kept, Kept(next));
  }

  /** One block, held and released inside a frame. */
  lemma {:induction false} BlockRuns(s: State, body: Actions, ignore: bool)
    requires s.stack != []
    ensures Run(s.Hold(), body).stack != []
    ensures Run(s.Hold(), body).Release(ignore) ==
            s.EmitAll(Unheld(body)).(stack := Extend(s.stack, if ignore then [] else Kept(body)))
    decreases body, 1
  {
    hide State.Emit;
    RunHeld(s.Hold(), body);
    Popped(s, body);
    var popped := s.EmitAll(Unheld(body)).(stack := s.stack);
    ExtendTwice(s.stack, [], []);
    ReportAllIs(popped, Kept(body));
  }

  /** The stack under a block is as it was, and its frame holds what it keeps. */
  lemma Popped(s: State, body: Actions)
    requires Run(s.Hold(), body) == s.Hold().EmitAll(Unheld(body)).(stack := Extend(s.Hold().stack, Kept(body)))
    ensures var t := Run(s.Hold(), body);
            && t.stack[|t.stack| - 1] == Kept(body)
            && t.(stack := t.stack[..|t.stack| - 1]) == s.EmitAll(Unheld(body)).(stack := s.stack)
  {
    var t, held := Run(s.Hold(), body), s.stack + [[]];
    EmitAllStack(s, Unheld(body), held);
    assert Extend(held, Kept(body)) == s.stack + [Kept(body)] by {
      assert [] + Kept(body) == Kept(body);
    }
    assert t.stack == s.stack + [Kept(body)];
  }

  /** Outside all blocks, a run is the same as giving the errors that reach the sink to it one by one. */
  lemma {:induction false} RunReaches(s: State, actions: Actions)
    requires s.stack == []
    ensures Run(s, actions) == s.EmitAll(Reaching(actions))
    decreases actions
  {
    hide State.Emit;
    match actions
    case Done =>
    case Reporting(e, useStack, next) =>
      EmitAllStack(s, [e], []);
      RunReaches(s.Emit(e), next);
      EmitAllAppend(s, [e], Reaching(next));
    case Local(body, ignore, next) =>
      RunHeld(s.Hold(), body);
      Popped(s, body);
      var after, kept := s.EmitAll(Unheld(body)), if ignore then [] else Kept(body);
      EmitAllStack(s, Unheld(body), []);
      ReportAllIs(after, Kept(body));
      EmitAllAppend(s, Unheld(body), kept);
      EmitAllStack(after, kept, []);
      RunReaches(after.EmitAll(kept), next);
      EmitAllAppend(s, Unheld(body) + kept, Reaching(next));
  }

  // ----- What the sink has taken -----

  /** The elements of `xs` that are not known, each at its first occurrence. */
  function FirstNew<T(==)>(xs: seq<T>, known: set<T>): seq<T>
    decreases |xs|
  {
    if xs == [] then []
    else if xs[0] in known then FirstNew(xs[1..], known)
    else [xs[0]] + FirstNew(xs[1..], known + {xs[0]})
  }

  lemma {:induction false} FirstNewExactly<T>(xs: seq<T>, known: set<T>)
    ensures forall x :: x in FirstNew(xs, known) <==> x in xs && x !in known
    ensures forall i, j :: 0 <= i < j < |FirstNew(xs, known)| ==> FirstNew(xs, known)[i] != FirstNew(xs, known)[j]
    decreases |xs|
  {
    if xs != [] {
      FirstNewExactly(xs[1..], known);
      FirstNewExactly(xs[1..], known + {xs[0]});
      assert xs == [xs[0]] + xs[1..];
    }
  }

  function Lines(es: seq<Error>): seq<string> {
    seq(|es|, k requires 0 <= k < |es| => es[k].line)
  }

  /** The sink counts each error once, lists it if there is a listing, and echoes each line once if there is an
      echo. */
  lemma {:induction false} SinkTakes(s: State, es: seq<Error>)
    ensures var t, taken := s.EmitAll(es), FirstNew(es, s.reported);
            && t.count == s.count + |taken|
            && t.listing == (if s.listing.Some? then Some(s.listing.value + Lines(taken)) else None)
            && t.echo == (if s.echo.Some? then Some(s.echo.value + FirstNew(Lines(taken), s.seen)) else None)
    decreases |es|
  {
    if es == [] {
      NothingTaken(s);
    } else {
      var e, rest := es[0], es[1..];
      SinkTakes(s.Emit(e), rest);
      if e !in s.reported {
        var listing := if s.listing.Some? then s.listing.value else [];
        var echo := if s.echo.Some? then s.echo.value else [];
        OneMore(listing, echo, s.seen, e, FirstNew(rest, s.reported + {e}));
      }
    }
  }

  lemma NothingTaken(s: State)
    ensures s.listing.Some? ==> s.listing.value + Lines([]) == s.listing.value
    ensures s.echo.Some? ==> s.echo.value + FirstNew(Lines([]), s.seen) == s.echo.value
  {
  }

  lemma OneMore(listing: seq<string>, echo: seq<string>, seen: set<string>, e: Error, more: seq<Error>)
    ensures listing + [e.line] + Lines(more) == listing + Lines([e] + more)
    ensures (if e.line in seen then echo + FirstNew(Lines(more), seen + {e.line})
             else echo + [e.line] + FirstNew(Lines(more), seen + {e.line})) ==
            echo + FirstNew(Lines([e] + more), seen)
  {
    var ls := Lines([e] + more);
    assert ls == [e.line] + Lines(more) && ls[1..] == Lines(more) && ls[0] == e.line;
    var lines := FirstNew(Lines(more), seen + {e.line});
    if e.line in seen {
      assert seen + {e.line} == seen;
    } else {
      assert echo + [e.line] + lines == echo + ([e.line] + lines);
    }
  }

  /** The state after a listing file and an echo have been opened or not. */
  function Start(listingFile: bool, echoToStderr: bool, seen: set<string>): State {
    State([], {}, 0, if listingFile then Some([]) else None, if echoToStderr then Some([]) else None, seen)
  }

  /** A whole run, with or without a listing file and an echo: the count is the number of the distinct errors outside
      ignored blocks, a listing has them in the order in which they reach the sink, and an echo has the lines of the
      listing without those that repeat or were seen before. */
  lemma WholeRun(actions: Actions, listingFile: bool, echoToStderr: bool, seen: set<string>)
    ensures var errors := FirstNew(Reaching(actions), {});
            var t := Run(Start(listingFile, echoToStderr, seen), actions);
            && t.stack == [] && t.count == |errors|
            && t.listing == (if listingFile then Some(Lines(errors)) else None)
            && t.echo == (if echoToStderr then Some(FirstNew(Lines(errors), seen)) else None)
  {
    var s := Start(listingFile, echoToStderr, seen);
    RunReaches(s, actions);
    SinkTakes(s, Reaching(actions));
    EmitAllStack(s, Reaching(actions), []);
    var lines := Lines(FirstNew(Reaching(actions), {}));
    assert [] + lines == lines && [] + FirstNew(lines, seen) == FirstNew(lines, seen);
  }

  // ----- Which errors reach the sink -----

  /** No error in the run bypasses the frames. */
  predicate AllHeldBack(actions: Actions) {
    match actions
    case Done => true
    case Reporting(_, useStack, next) => useStack && AllHeldBack(next)
    case Local(body, _, next) => AllHeldBack(body) && AllHeldBack(next)
  }

  /** No error inside a block bypasses its frame. */
  predicate HeldInBlocks(actions: Actions) {
    match actions
    case Done => true
    case Reporting(_, _, next) => HeldInBlocks(next)
    case Local(body, _, next) => AllHeldBack(body) && HeldInBlocks(next)
  }

  /** All errors reported, in program order, each with whether some block around it ignores errors. */
  function Program(actions: Actions, ignored: bool): seq<(Error, bool)> {
    match actions
    case Done => []
    case Reporting(e, _, next) => [(e, ignored)] + Program(next, ignored)
    case Local(body, ignore, next) => Program(body, ignored || ignore) + Program(next, ignored)
  }

  function NotIgnored(es: seq<(Error, bool)>): seq<Error> {
    if es == [] then [] else (if es[0].1 then [] else [es[0].0]) + NotIgnored(es[1..])
  }

  lemma {:induction false} NotIgnoredAdds(a: seq<(Error, bool)>, b: seq<(Error, bool)>)
    ensures NotIgnored(a + b) == NotIgnored(a) + NotIgnored(b)
  {
    if a == [] {
      assert a + b == b;
    } else {
      assert (a + b)[1..] == a[1..] + b;
      NotIgnoredAdds(a[1..], b);
    }
  }

  lemma {:induction false} IgnoredAreDropped(actions: Actions)
    ensures NotIgnored(Program(actions, true)) == []
    decreases actions
  {
    match actions
    case Done =>
    case Reporting(e, _, next) =>
      IgnoredAreDropped(next);
    case Local(body, _, next) =>
      IgnoredAreDropped(body);
      IgnoredAreDropped(next);
      NotIgnoredAdds(Program(body, true), Program(next, true));
  }

  lemma {:induction false} NothingUnheld(actions: Actions)
    requires AllHeldBack(actions)
    ensures Unheld(actions) == []
    decreases actions
  {
    match actions
    case Done =>
    case Reporting(_, _, next) =>
      NothingUnheld(next);
    case Local(body, _, next) =>
      NothingUnheld(body);
      NothingUnheld(next);
  }

  lemma {:induction false} KeptInProgramOrder(actions: Actions)
    requires AllHeldBack(actions)
    ensures Kept(actions) == NotIgnored(Program(actions, false))
    decreases actions
  {
    match actions
    case Done =>
    case Reporting(e, _, next) =>
      KeptInProgramOrder(next);
      NotIgnoredAdds([(e, false)], Program(next, false));
    case Local(body, ignore, next) =>
      KeptInProgramOrder(body);
      KeptInProgramOrder(next);
      IgnoredAreDropped(body);
      NotIgnoredAdds(Program(body, ignore), Program(next, false));
  }

  /** If no error bypasses a frame that it is in, holding does not change the order: what reaches the sink is what was
      reported with no ignoring block around it. */
  lemma {:induction false} ReachingIsProgramOrder(actions: Actions)
    requires HeldInBlocks(actions)
    ensures Reaching(actions) == NotIgnored(Program(actions, false))
    decreases actions
  {
    match actions
    case Done =>
    case Reporting(e, _, next) =>
      ReachingIsProgramOrder(next);
      NotIgnoredAdds([(e, false)], Program(next, false));
    case Local(body, ignore, next) =>
      NothingUnheld(body);
      KeptInProgramOrder(body);
      ReachingIsProgramOrder(next);
      IgnoredAreDropped(body);
      NotIgnoredAdds(Program(body, ignore), Program(next, false));
      var kept := if ignore then [] else Kept(body);
      assert [] + kept == kept;
  }
}
