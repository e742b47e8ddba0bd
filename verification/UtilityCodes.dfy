/** Emission of utility code: the depth-first walk over the `requires` of utility codes that
    `GlobalState.use_utility_code` and `UtilityCode.put_code` of Cython/Compiler/Code.py perform together.

    Code objects are numbers in a library.  Two objects whose code sections agree are equal to the
    program, whatever they require; only their sections are remembered as used.  Sections can have macros that
    request further code when they are written, so a code also needs what its macros request. */
module UtilityCodes {

  datatype Part = Proto | Export | Impl | Init | Cleanup | StateDecls | StateTraverse | StateClear

  /** The sections of a code object, an absent one being empty. Equality of code objects is equality of these. */
  type Parts = map<Part, string>

  /** `macros` has the codes that the macros of a section request, in order. */
  datatype UtilityCode = UtilityCode(parts: Parts, needs: seq<nat>, macros: map<Part, seq<nat>>, exportsFunctions: bool,
                                     protoBlock: string, initBlock: string)

  datatype Entry = Section(code: nat, part: Part) | FunctionPointers(code: nat) | ErrorCheck(code: nat)

  datatype Emission = Emission(block: string, entry: Entry)

  /** What putting a code does after its requirements: sections, if it has them, and entries of other kinds. */
  datatype Task = PutSection(part: Part, block: string) | PutEntry(emission: Emission)

  /** What the walk has done: the sections known as used, and the objects put, in the order in which
      their own sections were written. */
  datatype Progress = Progress(seen: set<Parts>, done: seq<nat>)

  datatype Library = Library(codes: map<nat, UtilityCode>, sharedModule: bool, generateCleanup: bool)
  {
    predicate Closed() {
      && (forall c, k :: c in codes && 0 <= k < |codes[c].needs| ==> codes[c].needs[k] in codes)
      && forall c, part, k :: c in codes && part in codes[c].macros && 0 <= k < |codes[c].macros[part]| ==>
           codes[c].macros[part][k] in codes
    }

    function Key(c: nat): Parts
      requires c in codes
    {
      codes[c].parts
    }

    function AllKeys(): set<Parts> {
      set c | c in codes :: codes[c].parts
    }

    predicate Shared(c: nat)
      requires c in codes
    {
      codes[c].exportsFunctions && sharedModule
    }

    /** What must be there before `c`: nothing when the shared module supplies it. */
    function Required(c: nat): (rs: seq<nat>)
      requires c in codes
      ensures Closed() ==> forall r <- rs :: r in codes
    {
      if Shared(c) then [] else codes[c].needs
    }

    predicate Has(c: nat, part: Part)
      requires c in codes
    {
      part in codes[c].parts && codes[c].parts[part] != ""
    }

    /** The codes that a task requests before it writes anything. */
    function CallsOf(c: nat, task: Task): (rs: seq<nat>)
      requires c in codes
      ensures Closed() ==> forall r <- rs :: r in codes
    {
      if task.PutSection? && Has(c, task.part) && task.part in codes[c].macros then codes[c].macros[task.part] else []
    }

    /** What a task writes, and where. */
    function EmissionsOf(c: nat, task: Task): seq<Emission>
      requires c in codes
    {
      match task
      case PutSection(part, block) => if Has(c, part) then [Emission(block, Section(c, part))] else []
      case PutEntry(emission) => [emission]
    }

    function Tasks(c: nat): seq<Task>
      requires c in codes
    {
      CodeTasks(c) + StateTasks(c)
    }

    /** The prototypes and the code itself; the shared module keeps the latter for itself. */
    function CodeTasks(c: nat): seq<Task>
      requires c in codes
    {
      var block := codes[c].protoBlock;
      if Shared(c) then [PutEntry(Emission(block, FunctionPointers(c))), PutSection(Proto, block)]
      else [PutSection(Proto, block), PutSection(Export, block), PutSection(Impl, "utility_code_def")]
    }

    function StateTasks(c: nat): seq<Task>
      requires c in codes
    {
      (if generateCleanup then [PutSection(Cleanup, "cleanup_globals")] else []) +
      [PutSection(StateDecls, "module_state_contents"), PutSection(StateTraverse, "module_state_traverse_contents"),
       PutSection(StateClear, "module_state_clear_contents"), PutSection(Init, codes[c].initBlock)] +
      (if Has(c, Init) then [PutEntry(Emission(codes[c].initBlock, ErrorCheck(c)))] else [])
    }

    function Calls(c: nat, tasks: seq<Task>): (rs: seq<nat>)
      requires c in codes
      ensures Closed() ==> forall r <- rs :: r in codes
    {
      if tasks == [] then [] else Calls(c, tasks[..|tasks| - 1]) + CallsOf(c, tasks[|tasks| - 1])
    }

    function Emissions(c: nat, tasks: seq<Task>): seq<Emission>
      requires c in codes
    {
      if tasks == [] then [] else Emissions(c, tasks[..|tasks| - 1]) + EmissionsOf(c, tasks[|tasks| - 1])
    }

    /** Everything that is used while `c` is put. */
    function Needs(c: nat): (rs: seq<nat>)
      requires c in codes
      ensures Closed() ==> forall r <- rs :: r in codes
    {
      Required(c) + Calls(c, Tasks(c))
    }

    lemma {:induction false} NoMacros(c: nat, tasks: seq<Task>)
      requires c in codes && codes[c].macros == map[]
      ensures Calls(c, tasks) == []
      decreases |tasks|
    {
      if tasks != [] {
        NoMacros(c, tasks[..|tasks| - 1]);
      }
    }

    lemma NeedsWithoutMacros(c: nat)
      requires c in codes && codes[c].macros == map[]
      ensures Needs(c) == Required(c)
    {
      NoMacros(c, Tasks(c));
    }

    function Use(s: Progress, c: nat): (t: Progress)
      requires Closed() && c in codes
      ensures s.seen <= t.seen
      decreases |AllKeys() - s.seen|, 0
    {
      if Key(c) in s.seen then s
      else
        var t := (FewerLeft(s.seen, c); UseAll(Progress(s.seen + {Key(c)}, s.done), Needs(c)));
        Progress(t.seen, t.done + [c])
    }

    function UseAll(s: Progress, cs: seq<nat>): (t: Progress)
      requires Closed() && forall c <- cs :: c in codes
      ensures s.seen <= t.seen
      decreases |AllKeys() - s.seen|, |cs| + 1
    {
      if cs == [] then s
      else
        var t := Use(s, cs[0]);
        (NoMoreLeft(s.seen, t.seen); UseAll(t, cs[1..]))
    }

    /** One more call is one more request. */
    lemma {:induction false} UseAllAppend(s: Progress, cs: seq<nat>, c: nat)
      requires Closed() && c in codes && forall x <- cs :: x in codes
      ensures UseAll(s, cs + [c]) == Use(UseAll(s, cs), c)
      decreases |cs|
    {
      if cs == [] {
        assert [c][1..] == [];
        assert UseAll(s, [c]) == UseAll(Use(s, c), []);
      } else {
        assert (cs + [c])[1..] == cs[1..] + [c];
        UseAllAppend(Use(s, cs[0]), cs[1..], c);
      }
    }

    lemma FewerLeft(seen: set<Parts>, c: nat)
      requires c in codes && Key(c) !in seen
      ensures |AllKeys() - (seen + {Key(c)})| < |AllKeys() - seen|
    {
      var left := AllKeys() - seen;
      assert Key(c) in left;
      assert AllKeys() - (seen + {Key(c)}) == left - {Key(c)};
    }

    lemma NoMoreLeft(seen: set<Parts>, more: set<Parts>)
      requires seen <= more
      ensures |AllKeys() - more| <= |AllKeys() - seen|
    {
      Subset(AllKeys() - more, AllKeys() - seen);
    }

    static lemma Subset(a: set<Parts>, b: set<Parts>)
      requires a <= b
      ensures |a| <= |b|
    {
      assert b == a + (b - a);
    }

    // ----- What the walk should do -----

    ghost predicate IsPath(p: seq<nat>) {
      && p != []
      && (forall i :: 0 <= i < |p| ==> p[i] in codes)
      && forall i :: 0 <= i < |p| - 1 ==> p[i + 1] in Needs(p[i])
    }

    ghost predicate Reaches(from: nat, to: nat) {
      exists p :: IsPath(p) && p[0] == from && p[|p| - 1] == to
    }

    ghost predicate Wanted(requests: seq<nat>, c: nat) {
      exists r :: r in requests && Reaches(r, c)
    }

    ghost function NeedKeys(c: nat): set<Parts>
      requires c in codes
    {
      set r | r in Needs(c) && r in codes :: Key(r)
    }

    /** Among the codes that the requests need, equal ones require equal ones. */
    ghost predicate Consistent(requests: seq<nat>) {
      forall a, b :: a in codes && b in codes && Wanted(requests, a) && Wanted(requests, b) && Key(a) == Key(b) ==>
        NeedKeys(a) == NeedKeys(b)
    }

    /** What must be written for `c`, up to equality. */
    ghost function KeyClosure(c: nat): set<Parts> {
      set x | x in codes && Reaches(c, x) :: Key(x)
    }

    ghost predicate EqualClosures() {
      forall a, b :: a in codes && b in codes && Key(a) == Key(b) ==> KeyClosure(a) == KeyClosure(b)
    }

    lemma ReachesSelf(c: nat)
      requires c in codes
      ensures Reaches(c, c)
    {
      hide Library.Needs;
      assert IsPath([c]) && [c][0] == c;
    }

    lemma ReachesOn(a: nat, b: nat, r: nat)
      requires Reaches(a, b) && b in codes && r in Needs(b) && r in codes
      ensures Reaches(a, r)
    {
      hide Library.Needs;
      var p :| IsPath(p) && p[0] == a && p[|p| - 1] == b;
      var q := p + [r];
      assert forall i :: 0 <= i < |q| - 1 ==> q[i + 1] in Needs(q[i]);
      assert IsPath(q) && q[0] == a && q[|q| - 1] == r;
    }

    lemma {:induction false} ReachesThrough(p: seq<nat>, to: nat)
      requires IsPath(p) && Reaches(p[|p| - 1], to)
      ensures Reaches(p[0], to)
      decreases |p|
    {
      hide Library.Needs;
      if |p| > 1 {
        var i := |p| - 2;
        var q := p[..|p| - 1];
        assert p[i + 1] in Needs(p[i]);
        ReachesFrom(p[i], p[|p| - 1], to);
        assert q[|q| - 1] == p[i];
        forall j | 0 <= j < |q| - 1
          ensures q[j + 1] in Needs(q[j])
        {
          assert p[j + 1] in Needs(p[j]);
        }
        ReachesThrough(q, to);
      }
    }

    lemma ClosureWithin(a: nat, b: nat)
      requires Reaches(a, b)
      ensures KeyClosure(b) <= KeyClosure(a)
    {
      hide Library.Needs;
      var p :| IsPath(p) && p[0] == a && p[|p| - 1] == b;
      forall x | x in codes && Reaches(b, x)
        ensures Reaches(a, x)
      {
        ReachesThrough(p, x);
      }
    }

    // ----- What holds at every point of the walk -----

    ghost function Done(s: Progress): set<Parts>
      requires forall c <- s.done :: c in codes
    {
      set c | c in s.done :: Key(c)
    }

    /** Used but not yet written: the codes on the walk's stack. */
    ghost predicate Open(s: Progress, stack: seq<nat>) {
      && (forall c <- s.done :: c in codes)
      && (forall c <- stack :: c in codes)
      && s.seen == Done(s) + (set c | c in stack :: Key(c))
      && (forall i, j :: 0 <= i < j < |s.done| ==> Key(s.done[i]) != Key(s.done[j]))
      && (forall i, j :: 0 <= i < |s.done| && 0 <= j < |stack| ==> Key(s.done[i]) != Key(stack[j]))
    }

    /** `r` is settled for the code at position `k`: something equal to it was written earlier, or is on
        a cycle with that code. */
    ghost predicate Settled(s: Progress, k: nat, r: nat)
      requires k < |s.done| && r in codes && forall c <- s.done :: c in codes
    {
      || (exists i :: 0 <= i < k && Key(s.done[i]) == Key(r))
      || (exists q :: q in codes && Key(q) == Key(r) && Reaches(q, s.done[k]))
    }

    ghost predicate InOrder(s: Progress)
      requires forall c <- s.done :: c in codes
    {
      forall k, r :: 0 <= k < |s.done| && r in Needs(s.done[k]) && r in codes ==> Key(r) in s.seen && Settled(s, k, r)
    }

    /** The new codes written between `s` and `t` are reachable from one of `from`. */
    ghost predicate Adds(s: Progress, t: Progress, from: seq<nat>) {
      && s.done <= t.done
      && forall k :: |s.done| <= k < |t.done| ==> Wanted(from, t.done[k])
    }

    lemma ReachesFrom(a: nat, r: nat, b: nat)
      requires a in codes && r in Needs(a) && Reaches(r, b)
      ensures Reaches(a, b)
    {
      hide Library.Needs;
      var p :| IsPath(p) && p[0] == r && p[|p| - 1] == b;
      var q := [a] + p;
      forall i | 0 <= i < |q| - 1
        ensures q[i + 1] in Needs(q[i])
      {
        if i > 0 {
          assert p[i - 1 + 1] in Needs(p[i - 1]);
        }
      }
      assert IsPath(q) && q[0] == a && q[|q| - 1] == b;
    }

    ghost predicate Walking(s: Progress, stack: seq<nat>) {
      Open(s, stack) && InOrder(s)
    }

    lemma {:induction false} UseKeeps(s: Progress, c: nat, stack: seq<nat>)
      requires Closed() && c in codes && Walking(s, stack)
      requires forall o <- stack :: Reaches(o, c)
      ensures Walking(Use(s, c), stack) && Key(c) in Use(s, c).seen && Adds(s, Use(s, c), [c])
      decreases |AllKeys() - s.seen|, 0
    {
      hide Library.Needs, Library.Walking, Library.Reaches, Library.UseAll, Library.Adds;
      if Key(c) in s.seen {
        AddsNothing(s, [c]);
      } else {
        var pushed := Progress(s.seen + {Key(c)}, s.done);
        FewerLeft(s.seen, c);
        OpenMore(s, stack, c);
        StackReaches(stack, c);
        UseAllKeeps(pushed, Needs(c), stack + [c]);
        var t := UseAll(pushed, Needs(c));
        ClosingOpen(s, t, c, stack);
        ClosingOrder(t, c, stack);
        ClosingAdds(pushed, s, t, c);
        WalkingOf(Progress(t.seen, t.done + [c]), stack);
      }
    }

    lemma AddsNothing(s: Progress, from: seq<nat>)
      ensures Adds(s, s, from)
    {
    }

    lemma WalkingOf(s: Progress, stack: seq<nat>)
      requires Open(s, stack) && InOrder(s)
      ensures Walking(s, stack)
    {
    }

    lemma StackReaches(stack: seq<nat>, c: nat)
      requires Closed() && c in codes && forall o <- stack :: Reaches(o, c)
      ensures forall o, r :: o in stack + [c] && r in Needs(c) ==> Reaches(o, r)
    {
      hide Library.Needs;
      ReachesSelf(c);
      forall o, r | o in stack + [c] && r in Needs(c)
        ensures Reaches(o, r)
      {
        ReachesOn(o, c, r);
      }
    }

    lemma OpenMore(s: Progress, stack: seq<nat>, c: nat)
      requires c in codes && Walking(s, stack) && Key(c) !in s.seen
      ensures Walking(Progress(s.seen + {Key(c)}, s.done), stack + [c])
    {
      hide Library.Needs, Library.Settled;
      var t, stack' := Progress(s.seen + {Key(c)}, s.done), stack + [c];
      assert (set x | x in stack' :: Key(x)) == (set x | x in stack :: Key(x)) + {Key(c)};
      assert Open(t, stack');
      forall k, r | 0 <= k < |t.done| && r in Needs(t.done[k]) && r in codes
        ensures Key(r) in t.seen && Settled(t, k, r)
      {
        SettledStays(s, t, k, r);
      }
    }

    /** Writing `c` once everything it requires has been used. */
    lemma ClosingOpen(s: Progress, t: Progress, c: nat, stack: seq<nat>)
      requires c in codes && Walking(s, stack) && Key(c) !in s.seen && Walking(t, stack + [c])
      ensures Open(Progress(t.seen, t.done + [c]), stack)
    {
      hide Library.Needs, Library.InOrder;
      var t', stack' := Progress(t.seen, t.done + [c]), stack + [c];
      assert stack'[|stack|] == c;
      assert (set x | x in stack' :: Key(x)) == (set x | x in stack :: Key(x)) + {Key(c)};
      assert Done(t') == Done(t) + {Key(c)};
      assert forall j :: 0 <= j < |stack| ==> stack'[j] == stack[j];
      forall j | 0 <= j < |stack|
        ensures Key(stack[j]) != Key(c)
      {
        assert Key(stack[j]) in s.seen;
      }
    }

    lemma SettledStays(s: Progress, t: Progress, k: nat, r: nat)
      requires k < |s.done| && r in codes && s.done <= t.done && (forall c <- t.done :: c in codes) && Settled(s, k, r)
      ensures Settled(t, k, r)
    {
      hide Library.Needs, Library.Reaches;
      if i :| 0 <= i < k && Key(s.done[i]) == Key(r) {
        assert Key(t.done[i]) == Key(r);
      }
    }

    lemma ClosingOrder(t: Progress, c: nat, stack: seq<nat>)
      requires Closed() && c in codes && Walking(t, stack + [c])
      requires forall o <- stack :: Reaches(o, c)
      requires forall r <- Needs(c) :: Key(r) in t.seen
      ensures InOrder(Progress(t.seen, t.done + [c]))
    {
      hide Library.Needs, Library.Reaches;
      var t', stack' := Progress(t.seen, t.done + [c]), stack + [c];
      ReachesSelf(c);
      forall k, r | 0 <= k < |t'.done| && r in Needs(t'.done[k]) && r in codes
        ensures Key(r) in t'.seen && Settled(t', k, r)
      {
        if k < |t.done| {
          SettledStays(t, t', k, r);
        } else if Key(r) in Done(t) {
          var d :| d in t.done && Key(d) == Key(r);
          var i :| 0 <= i < |t.done| && t.done[i] == d;
          assert Key(t'.done[i]) == Key(r);
        } else {
          var o :| o in stack' && Key(o) == Key(r);
          assert Reaches(o, t'.done[k]);
        }
      }
    }

    lemma ClosingAdds(pushed: Progress, s: Progress, t: Progress, c: nat)
      requires c in codes && pushed.done == s.done && Adds(pushed, t, Needs(c))
      ensures Adds(s, Progress(t.seen, t.done + [c]), [c])
    {
      hide Library.Needs, Library.Reaches;
      var t' := Progress(t.seen, t.done + [c]);
      ReachesSelf(c);
      forall k | |s.done| <= k < |t'.done|
        ensures Wanted([c], t'.done[k])
      {
        assert c in [c];
        if k < |t.done| {
          var r :| r in Needs(c) && Reaches(r, t.done[k]);
          ReachesFrom(c, r, t.done[k]);
        }
      }
    }

    lemma AddsBoth(s: Progress, t: Progress, u: Progress, cs: seq<nat>)
      requires cs != [] && Adds(s, t, [cs[0]]) && Adds(t, u, cs[1..])
      ensures Adds(s, u, cs)
    {
      hide Library.Needs, Library.Reaches;
      assert s.done <= u.done;
      forall k | |s.done| <= k < |u.done|
        ensures Wanted(cs, u.done[k])
      {
        if k < |t.done| {
          assert Wanted([cs[0]], t.done[k]) && t.done[k] == u.done[k] && cs[0] in cs;
        } else {
          assert Wanted(cs[1..], u.done[k]);
        }
      }
    }

    lemma {:induction false} UseAllKeeps(s: Progress, cs: seq<nat>, stack: seq<nat>)
      requires Closed() && (forall c <- cs :: c in codes) && Walking(s, stack)
      requires forall o, c :: o in stack && c in cs ==> Reaches(o, c)
      ensures Walking(UseAll(s, cs), stack) && Adds(s, UseAll(s, cs), cs)
      ensures forall c <- cs :: Key(c) in UseAll(s, cs).seen
      decreases |AllKeys() - s.seen|, |cs| + 1
    {
      hide Library.Needs, Library.Walking, Library.Reaches, Library.Use, Library.Adds;
      if cs == [] {
        AddsNothing(s, []);
      } else {
        UseKeeps(s, cs[0], stack);
        var t := Use(s, cs[0]);
        NoMoreLeft(s.seen, t.seen);
        UseAllKeeps(t, cs[1..], stack);
        AddsBoth(s, t, UseAll(t, cs[1..]), cs);
      }
    }

    // ----- Main results -----

    /** The walk over all requests of a module, starting with nothing used. */
    function Walk(requests: seq<nat>): Progress
      requires Closed() && forall c <- requests :: c in codes
    {
      UseAll(Progress({}, []), requests)
    }

    /** Nothing equal is written twice, everything written is wanted, and each code requires only what was
        written before it or sits on a cycle with it. No assumption on the library is needed. */
    lemma WalkIsSound(requests: seq<nat>)
      requires Closed() && forall c <- requests :: c in codes
      ensures var t := Walk(requests);
              && (forall c <- t.done :: c in codes && Wanted(requests, c))
              && (forall i, j :: 0 <= i < j < |t.done| ==> Key(t.done[i]) != Key(t.done[j]))
              && t.seen == Done(t) && InOrder(t) && forall c <- requests :: Key(c) in t.seen
    {
      hide Library.Needs;
      var start := Progress({}, []);
      UseAllKeeps(start, requests, []);
      var t := Walk(requests);
      forall c | c in t.done
        ensures Wanted(requests, c)
      {
        var k :| 0 <= k < |t.done| && t.done[k] == c;
        assert Wanted(requests, t.done[k]);
      }
    }

    lemma TailIsPath(p: seq<nat>)
      requires IsPath(p) && |p| > 1
      ensures IsPath(p[1..])
    {
      hide Library.Needs;
      var t := p[1..];
      forall i | 0 <= i < |t| - 1
        ensures t[i + 1] in Needs(t[i])
      {
        assert p[i + 1 + 1] in Needs(p[i + 1]);
      }
    }

    /** What a used code requires has been used, even if it was an equal code that was written. */
    lemma NextIsDone(requests: seq<nat>, t: Progress, a: nat, r: nat)
      requires Consistent(requests) && a in codes && Wanted(requests, a) && r in codes && r in Needs(a)
      requires forall c <- t.done :: c in codes && Wanted(requests, c)
      requires t.seen == Done(t) && InOrder(t) && Key(a) in t.seen
      ensures Key(r) in t.seen
    {
      hide Library.Needs, Library.Settled, Library.Wanted, Library.Consistent;
      var d :| d in t.done && Key(d) == Key(a);
      var k :| 0 <= k < |t.done| && t.done[k] == d;
      var q := Twin(requests, a, d, r);
    }

    lemma Twin(requests: seq<nat>, a: nat, b: nat, r: nat) returns (q: nat)
      requires Consistent(requests) && a in codes && b in codes && Wanted(requests, a) && Wanted(requests, b)
      requires Key(a) == Key(b) && r in codes && r in Needs(a)
      ensures q in Needs(b) && q in codes && Key(q) == Key(r)
    {
      hide Library.Needs;
      assert Key(r) in NeedKeys(b);
      q :| q in Needs(b) && q in codes && Key(q) == Key(r);
    }

    lemma WantedOn(requests: seq<nat>, a: nat, r: nat)
      requires Wanted(requests, a) && a in codes && r in Needs(a) && r in codes
      ensures Wanted(requests, r)
    {
      hide Library.Needs;
      var q :| q in requests && Reaches(q, a);
      ReachesOn(q, a, r);
    }

    lemma {:induction false} PathIsDone(requests: seq<nat>, t: Progress, p: seq<nat>)
      requires Closed() && Consistent(requests) && IsPath(p) && Wanted(requests, p[0])
      requires forall c <- t.done :: c in codes && Wanted(requests, c)
      requires t.seen == Done(t) && InOrder(t) && Key(p[0]) in t.seen
      ensures Key(p[|p| - 1]) in t.seen
    {
      hide Library.Needs, Library.InOrder, Library.Consistent, Library.Done, Library.Wanted;
      if |p| > 1 {
        assert p[0 + 1] in Needs(p[0]);
        WantedOn(requests, p[0], p[1]);
        NextIsDone(requests, t, p[0], p[1]);
        TailIsPath(p);
        PathIsDone(requests, t, p[1..]);
      }
    }

    /** What the requests need, up to equality. */
    ghost function Closure(requests: seq<nat>): set<Parts> {
      set c | c in codes && Wanted(requests, c) :: Key(c)
    }

    ghost predicate Legal(requests: seq<nat>) {
      forall c <- requests :: c in codes
    }

    /** The walk writes, up to equality, exactly the codes that some request requires, directly or not. */
    ghost predicate Exact(requests: seq<nat>)
      requires Closed() && Legal(requests)
    {
      (forall c <- Walk(requests).done :: c in codes) && Done(Walk(requests)) == Closure(requests)
    }

    /** The closure is exact, cycles or none, where equal codes require equal codes. */
    lemma WalkIsClosure(requests: seq<nat>)
      requires Closed() && Legal(requests) && Consistent(requests)
      ensures Exact(requests)
    {
      hide Library.Needs, Library.InOrder, Library.Consistent, Library.Walk, Library.Wanted;
      WalkIsSound(requests);
      var t := Walk(requests);
      forall c | c in codes && Wanted(requests, c)
        ensures Key(c) in t.seen
      {
        var p := WantedPath(requests, c);
        PathIsDone(requests, t, p);
      }
    }

    lemma WantedPath(requests: seq<nat>, c: nat) returns (p: seq<nat>)
      requires Legal(requests) && Wanted(requests, c)
      ensures IsPath(p) && p[0] in requests && p[|p| - 1] == c && Wanted(requests, p[0])
    {
      hide Library.Needs;
      var r :| r in requests && Reaches(r, c);
      p :| IsPath(p) && p[0] == r && p[|p| - 1] == c;
      ReachesSelf(r);
    }

    /** A code is lost whenever something equal with a smaller closure is requested before it. */
    lemma LaterTwinLoses(a: nat, b: nat)
      requires Closed() && a in codes && b in codes && Key(a) == Key(b) && !(KeyClosure(a) <= KeyClosure(b))
      ensures exists x :: x in codes && Wanted([b, a], x) && Key(x) !in Walk([b, a]).seen
    {
      hide Library.Needs, Library.Reaches, Library.InOrder;
      var key :| key in KeyClosure(a) && key !in KeyClosure(b);
      var x :| x in codes && Reaches(a, x) && Key(x) == key;
      assert a in [b, a];
      WalkIsSound([b]);
      UseAllAppend(Progress({}, []), [b], a);
      assert [b] + [a] == [b, a] && b in [b];
      assert Walk([b, a]) == Walk([b]);
      forall c | c in Walk([b]).done
        ensures Key(c) != key
      {
        assert Key(c) in KeyClosure(b);
      }
      assert Wanted([b, a], x);
    }

    ghost predicate Acyclic() {
      forall c, r, q :: c in codes && r in Needs(c) && r in codes && q in codes && Key(q) == Key(r) ==> !Reaches(q, c)
    }

    /** Without cycles, everything is written after all it requires. */
    lemma RequirementsComeFirst(requests: seq<nat>, k: nat, r: nat)
      requires Closed() && Acyclic() && forall c <- requests :: c in codes
      requires forall c <- Walk(requests).done :: c in codes
      requires k < |Walk(requests).done| && r in Needs(Walk(requests).done[k]) && r in codes
      ensures exists i :: 0 <= i < k && Key(Walk(requests).done[i]) == Key(r)
    {
      hide Library.Needs, Library.Walk, Library.Reaches;
      WalkIsSound(requests);
      assert Settled(Walk(requests), k, r);
    }

    lemma {:induction false} DoneCloses(requests: seq<nat>, k: nat, key: Parts)
      requires Closed() && Acyclic() && EqualClosures() && Legal(requests)
      requires forall c <- Walk(requests).done :: c in codes
      requires k < |Walk(requests).done| && key in KeyClosure(Walk(requests).done[k])
      ensures key in Done(Walk(requests))
      decreases k
    {
      hide Library.Needs, Library.Walk, Library.Acyclic, Library.EqualClosures;
      var t := Walk(requests);
      var d := t.done[k];
      var x :| x in codes && Reaches(d, x) && Key(x) == key;
      var p :| IsPath(p) && p[0] == d && p[|p| - 1] == x;
      if |p| > 1 {
        var r := p[1];
        assert p[0 + 1] in Needs(p[0]);
        RequirementsComeFirst(requests, k, r);
        var i :| 0 <= i < k && Key(t.done[i]) == Key(r);
        TailIsPath(p);
        assert Reaches(r, x);
        EqualClosure(r, t.done[i]);
        DoneCloses(requests, i, key);
      }
    }

    lemma EqualClosure(a: nat, b: nat)
      requires EqualClosures() && a in codes && b in codes && Key(a) == Key(b)
      ensures KeyClosure(a) == KeyClosure(b)
    {
    }

    lemma WantedIsDone(requests: seq<nat>, c: nat)
      requires Closed() && Acyclic() && EqualClosures() && Legal(requests) && c in codes && Wanted(requests, c)
      requires forall c <- Walk(requests).done :: c in codes
      requires Done(Walk(requests)) == Walk(requests).seen && forall r <- requests :: Key(r) in Walk(requests).seen
      ensures Key(c) in Done(Walk(requests))
    {
      hide Library.Needs, Library.Walk, Library.Acyclic, Library.EqualClosures, Library.Reaches, Library.Closed;
      var t := Walk(requests);
      var r :| r in requests && Reaches(r, c);
      var d :| d in t.done && Key(d) == Key(r);
      var k :| 0 <= k < |t.done| && t.done[k] == d;
      EqualClosure(r, d);
      DoneCloses(requests, k, Key(c));
    }

    lemma AcyclicExact(requests: seq<nat>)
      requires Closed() && Acyclic() && EqualClosures() && Legal(requests)
      ensures Exact(requests)
    {
      hide Library.Needs, Library.Walk, Library.InOrder, Library.Acyclic, Library.EqualClosures, Library.Wanted;
      WalkIsSound(requests);
      forall c | c in codes && Wanted(requests, c)
        ensures Key(c) in Done(Walk(requests))
      {
        WantedIsDone(requests, c);
      }
    }

    lemma ExactTwins(a: nat, b: nat)
      requires Closed() && a in codes && b in codes && Key(a) == Key(b)
      ensures Exact([b, a]) ==> KeyClosure(a) <= KeyClosure(b)
    {
      hide Library.Needs, Library.Reaches, Library.Walk, Library.InOrder;
      WalkIsSound([b, a]);
      if !(KeyClosure(a) <= KeyClosure(b)) {
        LaterTwinLoses(a, b);
        var x :| x in codes && Wanted([b, a], x) && Key(x) !in Walk([b, a]).seen;
        assert Key(x) in Closure([b, a]);
      }
    }

    // ----- Requests one by one -----

    /** Whatever equals one of these codes requires only such codes. */
    ghost predicate ClosedKeys(keys: set<Parts>) {
      forall x, r :: x in codes && Key(x) in keys && r in Needs(x) && r in codes ==> Key(r) in keys
    }

    /** From a code among closed ones the walk stays among them. */
    lemma {:induction false} StaysWithin(s: Progress, c: nat, keys: set<Parts>)
      requires Closed() && c in codes && ClosedKeys(keys) && Key(c) in keys
      ensures Use(s, c).seen <= s.seen + keys
      decreases |AllKeys() - s.seen|, 0
    {
      hide Library.Needs, Library.UseAll, Library.ClosedKeys;
      if Key(c) !in s.seen {
        FewerLeft(s.seen, c);
        NeedsAmong(c, keys);
        AllStayWithin(Progress(s.seen + {Key(c)}, s.done), Needs(c), keys);
      }
    }

    lemma NeedsAmong(c: nat, keys: set<Parts>)
      requires Closed() && c in codes && ClosedKeys(keys) && Key(c) in keys
      ensures forall r <- Needs(c) :: r in codes && Key(r) in keys
    {
    }

    lemma {:induction false} AllStayWithin(s: Progress, cs: seq<nat>, keys: set<Parts>)
      requires Closed() && ClosedKeys(keys) && forall c <- cs :: c in codes && Key(c) in keys
      ensures UseAll(s, cs).seen <= s.seen + keys
      decreases |AllKeys() - s.seen|, |cs| + 1
    {
      hide Library.Needs, Library.Use, Library.ClosedKeys;
      if cs != [] {
        StaysWithin(s, cs[0], keys);
        NoMoreLeft(s.seen, Use(s, cs[0]).seen);
        AllStayWithin(Use(s, cs[0]), cs[1..], keys);
      }
    }

    /** If closed codes have been used before, the walk does the same with all others. */
    lemma {:induction false} UsedBefore(s: Progress, t: Progress, c: nat, keys: set<Parts>)
      requires Closed() && c in codes && ClosedKeys(keys) && t.seen == keys + s.seen
      ensures Use(t, c).seen == keys + Use(s, c).seen
      decreases |AllKeys() - s.seen|, 0
    {
      hide Library.Needs, Library.UseAll, Library.ClosedKeys;
      if Key(c) in s.seen {
      } else if Key(c) in keys {
        StaysWithin(s, c, keys);
      } else {
        FewerLeft(s.seen, c);
        AllUsedBefore(Progress(s.seen + {Key(c)}, s.done), Progress(t.seen + {Key(c)}, t.done), Needs(c), keys);
      }
    }

    lemma {:induction false} AllUsedBefore(s: Progress, t: Progress, cs: seq<nat>, keys: set<Parts>)
      requires Closed() && ClosedKeys(keys) && t.seen == keys + s.seen && forall c <- cs :: c in codes
      ensures UseAll(t, cs).seen == keys + UseAll(s, cs).seen
      decreases |AllKeys() - s.seen|, |cs| + 1
    {
      hide Library.Needs, Library.Use, Library.ClosedKeys;
      if cs != [] {
        UsedBefore(s, t, cs[0], keys);
        NoMoreLeft(s.seen, Use(s, cs[0]).seen);
        AllUsedBefore(Use(s, cs[0]), Use(t, cs[0]), cs[1..], keys);
      }
    }

    lemma ClosureIsClosed(requests: seq<nat>)
      requires EqualClosures()
      ensures ClosedKeys(Closure(requests))
    {
      hide Library.Needs, Library.EqualClosures, Library.Reaches;
      forall x, r | x in codes && Key(x) in Closure(requests) && r in Needs(x) && r in codes
        ensures Key(r) in Closure(requests)
      {
        var y :| y in codes && Wanted(requests, y) && Key(y) == Key(x);
        var q :| q in requests && Reaches(q, y);
        ReachesSelf(x);
        ReachesOn(x, x, r);
        EqualClosure(x, y);
        assert Key(r) in KeyClosure(y);
        var z :| z in codes && Reaches(y, z) && Key(z) == Key(r);
        ClosureWithin(q, y);
        assert Key(r) in KeyClosure(q);
        var w :| w in codes && Reaches(q, w) && Key(w) == Key(r);
        assert Wanted(requests, w);
      }
    }

    lemma OneMoreClosure(requests: seq<nat>, c: nat)
      ensures Closure(requests + [c]) == Closure(requests) + Closure([c])
    {
      hide Library.Needs, Library.Reaches;
      forall x | x in codes
        ensures Wanted(requests + [c], x) <==> Wanted(requests, x) || Wanted([c], x)
      {
        assert c in [c] && c in requests + [c];
        assert forall r <- requests :: r in requests + [c];
      }
    }

    /** `Exact` without the list of what was done. */
    lemma ExactSeen(requests: seq<nat>)
      requires Closed() && Legal(requests)
      ensures Exact(requests) <==> Walk(requests).seen == Closure(requests)
    {
      hide Library.Needs, Library.Walk, Library.InOrder, Library.Wanted;
      WalkIsSound(requests);
    }

    lemma {:induction false} SinglesSuffice(requests: seq<nat>)
      requires Closed() && EqualClosures() && Legal(requests) && forall c <- codes :: Exact([c])
      ensures Exact(requests)
      decreases |requests|
    {
      hide Library.Needs, Library.EqualClosures, Library.Exact, Library.Closure, Library.Use, Library.ClosedKeys;
      ExactSeen(requests);
      if requests == [] {
        NoClosure();
      } else {
        var most, c := requests[..|requests| - 1], requests[|requests| - 1];
        assert requests == most + [c] && [] + [c] == [c];
        var start := Progress({}, []);
        SinglesSuffice(most);
        ExactSeen(most);
        ExactSeen([c]);
        UseAllAppend(start, most, c);
        UseAllAppend(start, [], c);
        ClosureIsClosed(most);
        OneMoreClosure(most, c);
        UsedBefore(start, Walk(most), c, Closure(most));
      }
    }

    lemma NoClosure()
      ensures Closure([]) == {}
    {
    }

    /** In any library, all requests get their exact closure if and only if equal codes need the same codes,
        directly or not, and each code gets its own closure when it is requested alone. */
    lemma ExactWhenSinglesAre()
      requires Closed()
      ensures (forall requests :: Legal(requests) ==> Exact(requests)) <==>
              (EqualClosures() && forall c <- codes :: Exact([c]))
    {
      hide Library.Needs, Library.Exact, Library.KeyClosure;
      if EqualClosures() && forall c <- codes :: Exact([c]) {
        forall requests | Legal(requests)
          ensures Exact(requests)
        {
          SinglesSuffice(requests);
        }
      }
      if forall requests :: Legal(requests) ==> Exact(requests) {
        ExactTwinsAll();
      }
    }

    lemma ExactTwinsAll()
      requires Closed() && forall requests :: Legal(requests) ==> Exact(requests)
      ensures EqualClosures()
    {
      hide Library.Needs, Library.Exact, Library.KeyClosure;
      forall a, b | a in codes && b in codes && Key(a) == Key(b)
        ensures KeyClosure(a) == KeyClosure(b)
      {
        ExactTwins(a, b);
        ExactTwins(b, a);
        assert Legal([b, a]) && Legal([a, b]);
      }
    }

    /** Without cycles, all requests get their exact closure if and only if equal codes need the same codes,
        directly or not. */
    lemma ExactWhenEqualClosures()
      requires Closed() && Acyclic()
      ensures (forall requests :: Legal(requests) ==> Exact(requests)) <==> EqualClosures()
    {
      hide Library.Needs, Library.Exact, Library.Acyclic, Library.KeyClosure;
      if EqualClosures() {
        forall requests | Legal(requests)
          ensures Exact(requests)
        {
          AcyclicExact(requests);
        }
      }
      if forall requests :: Legal(requests) ==> Exact(requests) {
        ExactTwinsAll();
      }
    }
  }

  function Twins(a: Parts, b: Parts): Library {
    Library(map[0 := UtilityCode(a, [1], map[], false, "", ""), 1 := UtilityCode(b, [], map[], false, "", ""),
                2 := UtilityCode(a, [], map[], false, "", "")], false, false)
  }

  /** Equality of code objects ignores what they require: of two equal objects only the first one's
      requirements are written.  Here 2 equals 0, and 0 alone requires 1. */
  lemma EqualCodesLoseRequirements(a: Parts, b: Parts)
    requires a != b
    ensures var lib := Twins(a, b); lib.Closed() && lib.Wanted([2, 0], 1) && lib.Key(1) !in lib.Walk([2, 0]).seen
  {
    hide Library.Needs;
    var lib := Twins(a, b);
    lib.NeedsWithoutMacros(0);
    lib.NeedsWithoutMacros(2);
    assert lib.IsPath([0, 1]) && [0, 1][0] == 0;
    assert 0 in [2, 0] && lib.Wanted([2, 0], 1);
    var start := Progress({}, []);
    assert lib.UseAll(Progress({} + {a}, []), lib.Needs(2)) == Progress({a}, []);
    var t := lib.Use(start, 2);
    assert t == Progress({a}, [2]);
    assert [2, 0][1..] == [0] && [0][1..] == [];
    assert lib.UseAll(t, [0]) == lib.UseAll(lib.Use(t, 0), []) == t;
  }

  function CyclicTwins(a: Parts, b: Parts, c: Parts): Library {
    Library(map[0 := UtilityCode(a, [2, 4], map[], false, "", ""), 1 := UtilityCode(a, [3], map[], false, "", ""),
                2 := UtilityCode(b, [1], map[], false, "", ""), 3 := UtilityCode(b, [0], map[], false, "", ""),
                4 := UtilityCode(c, [], map[], false, "", "")], false, false)
  }

  lemma CyclicTwinsClosed(a: Parts, b: Parts, c: Parts)
    ensures CyclicTwins(a, b, c).Closed()
  {
    var lib := CyclicTwins(a, b, c);
    assert forall x <- lib.codes :: lib.codes[x].macros == map[];
  }

  lemma CyclicTwinsNeed(a: Parts, b: Parts, c: Parts)
    ensures var lib := CyclicTwins(a, b, c);
            lib.Closed() && lib.Needs(0) == [2, 4] && lib.Needs(1) == [3] && lib.Needs(2) == [1] && lib.Needs(3) == [0]
  {
    hide Library.Needs, Library.Closed, Library.Calls, Library.Tasks;
    var lib := CyclicTwins(a, b, c);
    CyclicTwinsClosed(a, b, c);
    lib.NeedsWithoutMacros(0);
    lib.NeedsWithoutMacros(1);
    lib.NeedsWithoutMacros(2);
    lib.NeedsWithoutMacros(3);
  }

  lemma CyclicTwinsReach(a: Parts, b: Parts, c: Parts, x: nat)
    requires x < 4
    ensures forall y :: 0 <= y < 5 ==> CyclicTwins(a, b, c).Reaches(x, y)
  {
    hide Library.Reaches, Library.Needs;
    var lib := CyclicTwins(a, b, c);
    CyclicTwinsNeed(a, b, c);
    var next: map<nat, nat> := map[0 := 2, 2 := 1, 1 := 3, 3 := 0];
    assert forall y <- next :: next[y] in lib.Needs(y);
    var u := next[x];
    var v := next[u];
    lib.ReachesSelf(x);
    lib.ReachesOn(x, x, u);
    lib.ReachesOn(x, u, v);
    lib.ReachesOn(x, v, next[v]);
    lib.ReachesOn(x, 0, 4);
  }

  lemma CyclicTwinsClosures(a: Parts, b: Parts, c: Parts)
    requires a != b && b != c && a != c
    ensures CyclicTwins(a, b, c).EqualClosures()
  {
    hide Library.Reaches, Library.KeyClosure;
    var lib := CyclicTwins(a, b, c);
    forall x, y | x in lib.codes && y in lib.codes && lib.Key(x) == lib.Key(y)
      ensures lib.KeyClosure(x) == lib.KeyClosure(y)
    {
      if x != y {
        CyclicTwinsReach(a, b, c, x);
        CyclicTwinsReach(a, b, c, y);
        lib.ClosureWithin(x, y);
        lib.ClosureWithin(y, x);
      }
    }
  }

  /** On cycles equal closures are not enough: here 0 and 1 are equal and need the same codes, as do 2 and 3,
      but the walk from 1 skips 0, which alone requires 4 directly. */
  lemma CyclesLoseRequirements(a: Parts, b: Parts, c: Parts)
    requires a != b && b != c && a != c
    ensures var lib := CyclicTwins(a, b, c);
            lib.Closed() && lib.EqualClosures() && lib.Wanted([1], 4) && lib.Key(4) !in lib.Walk([1]).seen
  {
    hide Library.Reaches, Library.EqualClosures, Library.Walk, Library.Needs;
    CyclicTwinsNeed(a, b, c);
    CyclicTwinsClosures(a, b, c);
    CyclicTwinsReach(a, b, c, 1);
    assert 1 in [1];
    CyclicWalk(a, b, c);
  }

  lemma CyclicWalk(a: Parts, b: Parts, c: Parts)
    requires a != b && b != c && a != c
    ensures CyclicTwins(a, b, c).Walk([1]).seen == {a, b}
  {
    hide Library.Needs;
    var lib := CyclicTwins(a, b, c);
    var start, outer, inner := Progress({}, []), Progress({a}, []), Progress({a} + {b}, []);
    assert [0][1..] == [] && [1][1..] == [] && [3][1..] == [];
    CyclicTwinsNeed(a, b, c);
    assert lib.Use(inner, 0) == inner;
    assert lib.UseAll(inner, [0]) == lib.UseAll(inner, []) == inner;
    var t := lib.Use(outer, 3);
    assert t.seen == {a} + {b};
    assert lib.UseAll(outer, [3]) == lib.UseAll(t, []) == t;
    assert {} + {a} == {a};
    var u := lib.Use(start, 1);
    assert u.seen == t.seen;
    assert lib.UseAll(start, [1]) == lib.UseAll(u, []) == u;
  }
}
