/** The writing of utility code into the blocks of the output: `GlobalState` performs the walk of `UtilityCodes` and
    keeps a log of what it writes.  `WritesWhatBelongs` and `PartsAreRight` say what is written of every code, and where;
    `WrittenInTime`, that what a section needs has been written before it. */
module UtilityEmissions {
  import opened UtilityCodes

  function InBlock(es: seq<Emission>, block: string): seq<Entry> {
    if es == [] then []
    else
      var e := es[|es| - 1];
      InBlock(es[..|es| - 1], block) + (if e.block == block then [e.entry] else [])
  }

  lemma InBlockMore(es: seq<Emission>, e: Emission, block: string)
    ensures InBlock(es + [e], block) == InBlock(es, block) + (if e.block == block then [e.entry] else [])
  {
    assert (es + [e])[..|es|] == es;
  }

  function Blocks(lib: Library): set<string> {
    {"utility_code_def", "cleanup_globals", "module_state_contents", "module_state_traverse_contents",
     "module_state_clear_contents"} +
    (set c | c in lib.codes :: lib.codes[c].protoBlock) + (set c | c in lib.codes :: lib.codes[c].initBlock)
  }

  /** Every block of the output holds exactly what has been written to it, in that order. */
  ghost predicate Laid(lib: Library, parts: map<string, seq<Entry>>, log: seq<Emission>) {
    parts.Keys == Blocks(lib) && forall b :: b in parts ==> parts[b] == InBlock(log, b)
  }

  lemma BlockNames(lib: Library)
    ensures "utility_code_def" in Blocks(lib) && "cleanup_globals" in Blocks(lib) && "module_state_contents" in Blocks(lib)
    ensures "module_state_traverse_contents" in Blocks(lib) && "module_state_clear_contents" in Blocks(lib)
    ensures forall c :: c in lib.codes ==> lib.codes[c].protoBlock in Blocks(lib) && lib.codes[c].initBlock in Blocks(lib)
  {
  }

  lemma LaidMore(lib: Library, parts: map<string, seq<Entry>>, log: seq<Emission>, e: Emission)
    requires Laid(lib, parts, log) && e.block in parts
    ensures Laid(lib, parts[e.block := parts[e.block] + [e.entry]], log + [e])
  {
    hide Blocks, InBlock;
    forall b | b in parts
      ensures InBlock(log + [e], b) == InBlock(log, b) + (if e.block == b then [e.entry] else [])
    {
      InBlockMore(log, e, b);
    }
    assert forall es: seq<Entry> :: es + [] == es;
  }

  // ----- What the walk writes -----

  function LogAll(lib: Library, s: Progress, cs: seq<nat>): seq<Emission>
    requires lib.Closed() && forall c <- cs :: c in lib.codes
    decreases |lib.AllKeys() - s.seen|, 1, |cs|
  {
    if cs == [] then []
    else
      var t := lib.Use(s, cs[0]);
      (lib.NoMoreLeft(s.seen, t.seen); LogOne(lib, s, cs[0]) + LogAll(lib, t, cs[1..]))
  }

  function LogOne(lib: Library, s: Progress, c: nat): seq<Emission>
    requires lib.Closed() && c in lib.codes
    decreases |lib.AllKeys() - s.seen|, 0, 0
  {
    if lib.Key(c) in s.seen then []
    else
      var pushed := Progress(s.seen + {lib.Key(c)}, s.done);
      var t := (lib.FewerLeft(s.seen, c); lib.UseAll(pushed, lib.Required(c)));
      (lib.NoMoreLeft(pushed.seen, t.seen);
       LogAll(lib, pushed, lib.Required(c)) + LogTasks(lib, t, c, lib.Tasks(c)))
  }

  /** The tasks of `c` one after the other, each with what its macros request before it. */
  function LogTasks(lib: Library, s: Progress, c: nat, tasks: seq<Task>): seq<Emission>
    requires lib.Closed() && c in lib.codes
    decreases |lib.AllKeys() - s.seen|, 2, |tasks|
  {
    if tasks == [] then []
    else
      var most, task := tasks[..|tasks| - 1], tasks[|tasks| - 1];
      var t := lib.UseAll(s, lib.Calls(c, most));
      (lib.NoMoreLeft(s.seen, t.seen);
       LogTasks(lib, s, c, most) + LogAll(lib, t, lib.CallsOf(c, task)) + lib.EmissionsOf(c, task))
  }

  lemma {:induction false} UseAllConcat(lib: Library, s: Progress, a: seq<nat>, b: seq<nat>)
    requires lib.Closed() && (forall c <- a :: c in lib.codes) && forall c <- b :: c in lib.codes
    ensures forall c <- a + b :: c in lib.codes
    ensures lib.UseAll(s, a + b) == lib.UseAll(lib.UseAll(s, a), b)
    decreases |a|
  {
    hide Library.Use;
    if a == [] {
      assert a + b == b;
    } else {
      assert (a + b)[1..] == a[1..] + b;
      UseAllConcat(lib, lib.Use(s, a[0]), a[1..], b);
    }
  }

  lemma TasksMore(lib: Library, s: Progress, c: nat, tasks: seq<Task>, task: Task)
    requires lib.Closed() && c in lib.codes
    ensures var t := lib.UseAll(s, lib.Calls(c, tasks));
      && lib.UseAll(s, lib.Calls(c, tasks + [task])) == lib.UseAll(t, lib.CallsOf(c, task))
      && LogTasks(lib, s, c, tasks + [task])
         == LogTasks(lib, s, c, tasks) + LogAll(lib, t, lib.CallsOf(c, task)) + lib.EmissionsOf(c, task)
      && lib.Emissions(c, tasks + [task]) == lib.Emissions(c, tasks) + lib.EmissionsOf(c, task)
  {
    hide Library.UseAll, LogAll, Library.CallsOf, Library.EmissionsOf;
    assert (tasks + [task])[..|tasks|] == tasks;
    UseAllConcat(lib, s, lib.Calls(c, tasks), lib.CallsOf(c, task));
  }

  lemma NoTasks(lib: Library, s: Progress, c: nat)
    requires lib.Closed() && c in lib.codes
    ensures lib.UseAll(s, lib.Calls(c, [])) == s && LogTasks(lib, s, c, []) == [] && lib.Emissions(c, []) == []
  {
  }

  lemma OneIs(lib: Library, s: Progress, c: nat)
    requires lib.Closed() && c in lib.codes && lib.Key(c) !in s.seen
    ensures var pushed := Progress(s.seen + {lib.Key(c)}, s.done);
      var t := lib.UseAll(pushed, lib.Required(c));
      var u := lib.UseAll(t, lib.Calls(c, lib.Tasks(c)));
      && lib.Use(s, c) == Progress(u.seen, u.done + [c])
      && LogOne(lib, s, c) == LogAll(lib, pushed, lib.Required(c)) + LogTasks(lib, t, c, lib.Tasks(c))
  {
    hide Library.UseAll, LogAll, LogTasks, Library.Tasks, Library.Calls, Library.Required;
    lib.FewerLeft(s.seen, c);
    UseAllConcat(lib, Progress(s.seen + {lib.Key(c)}, s.done), lib.Required(c), lib.Calls(c, lib.Tasks(c)));
  }

  // ----- Every section once -----

  function OfCode(log: seq<Emission>, c: nat): seq<Emission> {
    if log == [] then []
    else
      var e := log[|log| - 1];
      OfCode(log[..|log| - 1], c) + (if e.entry.code == c then [e] else [])
  }

  lemma {:induction false} OfCodeConcat(a: seq<Emission>, b: seq<Emission>, c: nat)
    ensures OfCode(a + b, c) == OfCode(a, c) + OfCode(b, c)
    decreases |b|
  {
    if b == [] {
      assert a + b == a;
    } else {
      var most := b[..|b| - 1];
      assert (a + b)[..|a + b| - 1] == a + most;
      OfCodeConcat(a, most, c);
    }
  }

  /** What all tasks of a code write. */
  function Whole(lib: Library, c: nat): seq<Emission>
    requires c in lib.codes
  {
    lib.Emissions(c, lib.Tasks(c))
  }

  /** A task writes entries of its own code. */
  ghost predicate OwnTasks(c: nat, tasks: seq<Task>) {
    forall k :: 0 <= k < |tasks| && tasks[k].PutEntry? ==> tasks[k].emission.entry.code == c
  }

  lemma TasksAreOwn(lib: Library, c: nat)
    requires c in lib.codes
    ensures OwnTasks(c, lib.Tasks(c))
  {
  }

  lemma OwnEmission(lib: Library, c: nat, task: Task, x: nat)
    requires c in lib.codes && (task.PutEntry? ==> task.emission.entry.code == c)
    ensures OfCode(lib.EmissionsOf(c, task), x) == if x == c then lib.EmissionsOf(c, task) else []
  {
    var es := lib.EmissionsOf(c, task);
    assert es == [] || (|es| == 1 && es[..0] == [] && OfCode([], x) == []);
  }

  /** Between `s` and `t` new codes are done, and the log has all their sections and nothing else, except for `partial`
      of one code that is not among them. */
  ghost predicate Writes(lib: Library, s: Progress, t: Progress, log: seq<Emission>, c: nat, partial: seq<Emission>) {
    && s.done <= t.done && s.seen <= t.seen
    && (forall x <- t.done[|s.done|..] :: x in lib.codes && lib.Key(x) !in s.seen && lib.Key(x) in t.seen)
    && forall x :: x in lib.codes ==>
         OfCode(log, x) == (if x in t.done[|s.done|..] then Whole(lib, x) else []) + (if x == c then partial else [])
  }

  lemma WritesNothing(lib: Library, s: Progress, c: nat)
    ensures Writes(lib, s, s, [], c, [])
  {
  }

  /** First one, then the other; only one of them leaves a code unfinished. */
  lemma WritesBoth(lib: Library, s: Progress, t: Progress, u: Progress, a: seq<Emission>, b: seq<Emission>, c: nat,
                   partial: seq<Emission>)
    requires Writes(lib, s, t, a, c, partial) && Writes(lib, t, u, b, c, [])
    requires partial == [] || (c in lib.codes && lib.Key(c) in t.seen)
    ensures Writes(lib, s, u, a + b, c, partial)
  {
    hide OfCode, Whole;
    assert u.done[|s.done|..] == t.done[|s.done|..] + u.done[|t.done|..];
    forall x | x in lib.codes
      ensures OfCode(a + b, x) == (if x in u.done[|s.done|..] then Whole(lib, x) else []) + (if x == c then partial else [])
    {
      OfCodeConcat(a, b, x);
      assert x in u.done[|s.done|..] <==> x in t.done[|s.done|..] || x in u.done[|t.done|..];
      assert x in u.done[|t.done|..] ==> x !in t.done[|s.done|..] && (x != c || partial == []);
    }
  }

  /** A log without unfinished code is one for every code. */
  lemma WritesAny(lib: Library, s: Progress, t: Progress, log: seq<Emission>, c: nat, d: nat)
    requires Writes(lib, s, t, log, c, [])
    ensures Writes(lib, s, t, log, d, [])
  {
    hide OfCode, Whole;
  }

  lemma {:induction false} AllWrites(lib: Library, s: Progress, cs: seq<nat>, c: nat)
    requires lib.Closed() && forall x <- cs :: x in lib.codes
    ensures Writes(lib, s, lib.UseAll(s, cs), LogAll(lib, s, cs), c, [])
    decreases |lib.AllKeys() - s.seen|, 1, |cs|
  {
    hide Writes, Library.Use, LogOne;
    if cs == [] {
      WritesNothing(lib, s, c);
    } else {
      var t := lib.Use(s, cs[0]);
      OneWrites(lib, s, cs[0], c);
      lib.NoMoreLeft(s.seen, t.seen);
      AllWrites(lib, t, cs[1..], c);
      WritesBoth(lib, s, t, lib.UseAll(s, cs), LogOne(lib, s, cs[0]), LogAll(lib, t, cs[1..]), c, []);
    }
  }

  lemma {:induction false} OneWrites(lib: Library, s: Progress, c: nat, d: nat)
    requires lib.Closed() && c in lib.codes
    ensures Writes(lib, s, lib.Use(s, c), LogOne(lib, s, c), d, [])
    decreases |lib.AllKeys() - s.seen|, 0, 0
  {
    hide Writes, Library.UseAll, LogAll, LogTasks, Library.Tasks, Library.Needs;
    if lib.Key(c) in s.seen {
      WritesNothing(lib, s, d);
    } else {
      var pushed := Progress(s.seen + {lib.Key(c)}, s.done);
      var t := lib.UseAll(pushed, lib.Required(c));
      var u := lib.UseAll(t, lib.Calls(c, lib.Tasks(c)));
      OneIs(lib, s, c);
      lib.FewerLeft(s.seen, c);
      AllWrites(lib, pushed, lib.Required(c), c);
      lib.NoMoreLeft(pushed.seen, t.seen);
      TasksAreOwn(lib, c);
      TasksWrite(lib, t, c, lib.Tasks(c));
      OneCloses(lib, s, t, u, c, LogAll(lib, pushed, lib.Required(c)), LogTasks(lib, t, c, lib.Tasks(c)));
      WritesAny(lib, s, lib.Use(s, c), LogOne(lib, s, c), c, d);
    }
  }

  lemma OneCloses(lib: Library, s: Progress, t: Progress, u: Progress, c: nat, a: seq<Emission>, b: seq<Emission>)
    requires c in lib.codes && lib.Key(c) !in s.seen
    requires Writes(lib, Progress(s.seen + {lib.Key(c)}, s.done), t, a, c, []) && Writes(lib, t, u, b, c, Whole(lib, c))
    ensures Writes(lib, s, Progress(u.seen, u.done + [c]), a + b, c, [])
  {
    hide OfCode, Whole;
    var done, first, second := u.done + [c], t.done[|s.done|..], u.done[|t.done|..];
    assert done[|s.done|..] == first + second + [c];
    forall x | x in lib.codes
      ensures OfCode(a + b, x) == if x in first + second + [c] then Whole(lib, x) else []
    {
      ClosedAt(lib, s, t, u, c, a, b, x);
      InThree(first, second, c, x);
    }
    forall x | x in first + second + [c]
      ensures x in lib.codes && lib.Key(x) !in s.seen && lib.Key(x) in u.seen
    {
      InThree(first, second, c, x);
      ClosedKeys(lib, s, t, u, c, a, b, x);
    }
  }

  lemma ClosedKeys(lib: Library, s: Progress, t: Progress, u: Progress, c: nat, a: seq<Emission>, b: seq<Emission>, x: nat)
    requires c in lib.codes && lib.Key(c) !in s.seen
    requires Writes(lib, Progress(s.seen + {lib.Key(c)}, s.done), t, a, c, []) && Writes(lib, t, u, b, c, Whole(lib, c))
    requires x in t.done[|s.done|..] || x in u.done[|t.done|..] || x == c
    ensures x in lib.codes && lib.Key(x) !in s.seen && lib.Key(x) in u.seen
  {
    hide OfCode, Whole;
  }

  lemma ClosedAt(lib: Library, s: Progress, t: Progress, u: Progress, c: nat, a: seq<Emission>, b: seq<Emission>, x: nat)
    requires c in lib.codes && lib.Key(c) !in s.seen && x in lib.codes
    requires Writes(lib, Progress(s.seen + {lib.Key(c)}, s.done), t, a, c, []) && Writes(lib, t, u, b, c, Whole(lib, c))
    ensures OfCode(a + b, x) ==
            if x in t.done[|s.done|..] || x in u.done[|t.done|..] || x == c then Whole(lib, x) else []
  {
    hide OfCode, Whole;
    OfCodeConcat(a, b, x);
    assert x in t.done[|s.done|..] ==> x !in u.done[|t.done|..] && x != c;
    assert x in u.done[|t.done|..] ==> x != c;
  }

  lemma InThree(a: seq<nat>, b: seq<nat>, c: nat, x: nat)
    ensures x in a + b + [c] <==> x in a || x in b || x == c
  {
  }

  lemma {:induction false} TasksWrite(lib: Library, s: Progress, c: nat, tasks: seq<Task>)
    requires lib.Closed() && c in lib.codes && lib.Key(c) in s.seen && OwnTasks(c, tasks)
    ensures Writes(lib, s, lib.UseAll(s, lib.Calls(c, tasks)), LogTasks(lib, s, c, tasks), c, lib.Emissions(c, tasks))
    decreases |lib.AllKeys() - s.seen|, 2, |tasks|
  {
    hide Writes, Library.UseAll, LogAll, LogTasks, Library.Calls, Library.Emissions;
    if tasks == [] {
      NoTasks(lib, s, c);
      WritesNothing(lib, s, c);
    } else {
      var most, task := tasks[..|tasks| - 1], tasks[|tasks| - 1];
      var t := lib.UseAll(s, lib.Calls(c, most));
      assert tasks == most + [task];
      TasksWrite(lib, s, c, most);
      lib.NoMoreLeft(s.seen, t.seen);
      AllWrites(lib, t, lib.CallsOf(c, task), c);
      TasksMore(lib, s, c, most, task);
      var u, a, b := lib.UseAll(t, lib.CallsOf(c, task)), LogTasks(lib, s, c, most), LogAll(lib, t, lib.CallsOf(c, task));
      WritesBoth(lib, s, t, u, a, b, c, lib.Emissions(c, most));
      TaskWrites(lib, s, u, a + b, c, most, task);
    }
  }

  lemma TaskWrites(lib: Library, s: Progress, u: Progress, log: seq<Emission>, c: nat, tasks: seq<Task>, task: Task)
    requires c in lib.codes && lib.Key(c) in s.seen && (task.PutEntry? ==> task.emission.entry.code == c)
    requires Writes(lib, s, u, log, c, lib.Emissions(c, tasks))
    ensures Writes(lib, s, u, log + lib.EmissionsOf(c, task), c, lib.Emissions(c, tasks) + lib.EmissionsOf(c, task))
  {
    hide OfCode, Whole, Library.Emissions, Library.EmissionsOf;
    forall x | x in lib.codes
      ensures OfCode(log + lib.EmissionsOf(c, task), x) ==
              (if x in u.done[|s.done|..] then Whole(lib, x) else []) +
              (if x == c then lib.Emissions(c, tasks) + lib.EmissionsOf(c, task) else [])
    {
      OfCodeConcat(log, lib.EmissionsOf(c, task), x);
      OwnEmission(lib, c, task, x);
    }
  }

  /** Of every code that is written, each section that it has is written once and in order; of the others nothing. */
  lemma WrittenOnce(lib: Library, requests: seq<nat>, c: nat)
    requires lib.Closed() && lib.Legal(requests) && c in lib.codes
    ensures OfCode(LogAll(lib, Progress({}, []), requests), c) == if c in lib.Walk(requests).done then Whole(lib, c) else []
  {
    hide OfCode, Whole, LogAll, Library.UseAll;
    AllWrites(lib, Progress({}, []), requests, c);
    var done := lib.Walk(requests).done;
    assert done[0..] == done;
  }

  // ----- What is needed is there in time -----

  /** At some point exactly the given tasks of `c` had written their sections, and all sections of something that equals
      `r` were there. */
  ghost predicate Ready(lib: Library, log: seq<Emission>, c: nat, tasks: seq<Task>, r: nat)
    requires c in lib.codes && r in lib.codes
  {
    exists n: nat, q: nat ::
      && n <= |log| && q in lib.codes && lib.Key(q) == lib.Key(r)
      && OfCode(log[..n], c) == lib.Emissions(c, tasks) && OfCode(log[..n], q) == Whole(lib, q)
  }

  /** `r` is on a cycle with `c`. */
  ghost predicate OnCycle(lib: Library, c: nat, r: nat)
    requires r in lib.codes
  {
    exists q :: q in lib.codes && lib.Key(q) == lib.Key(r) && lib.Reaches(q, c)
  }

  /** What `c` needs before its k-th task: its requirements from the start, and what the macros of the task request. */
  predicate NeededFor(lib: Library, c: nat, k: nat, r: nat)
    requires c in lib.codes && k < |lib.Tasks(c)|
  {
    r in lib.CallsOf(c, lib.Tasks(c)[k]) || (k == 0 && r in lib.Required(c))
  }

  ghost predicate InTime(lib: Library, log: seq<Emission>, c: nat)
    requires c in lib.codes
  {
    forall k: nat, r: nat :: k < |lib.Tasks(c)| && r in lib.codes && NeededFor(lib, c, k, r) ==>
      Ready(lib, log, c, lib.Tasks(c)[..k], r) || OnCycle(lib, c, r)
  }

  ghost predicate AllInTime(lib: Library, log: seq<Emission>, done: seq<nat>) {
    forall c <- done :: c in lib.codes && InTime(lib, log, c)
  }

  lemma ReadyStays(lib: Library, log: seq<Emission>, more: seq<Emission>, c: nat, tasks: seq<Task>, r: nat)
    requires c in lib.codes && r in lib.codes && Ready(lib, log, c, tasks, r)
    ensures Ready(lib, log + more, c, tasks, r)
  {
    hide OfCode, Whole, Library.Emissions;
    var n: nat, q: nat :|
      && n <= |log| && q in lib.codes && lib.Key(q) == lib.Key(r)
      && OfCode(log[..n], c) == lib.Emissions(c, tasks) && OfCode(log[..n], q) == Whole(lib, q);
    assert (log + more)[..n] == log[..n];
  }

  lemma InTimeStays(lib: Library, log: seq<Emission>, more: seq<Emission>, done: seq<nat>)
    requires AllInTime(lib, log, done)
    ensures AllInTime(lib, log + more, done)
  {
    hide Ready, OnCycle, Library.Tasks, NeededFor;
    forall c, k: nat, r: nat | c in done && k < |lib.Tasks(c)| && r in lib.codes && NeededFor(lib, c, k, r)
      ensures Ready(lib, log + more, c, lib.Tasks(c)[..k], r) || OnCycle(lib, c, r)
    {
      assert InTime(lib, log, c);
      if Ready(lib, log, c, lib.Tasks(c)[..k], r) {
        ReadyStays(lib, log, more, c, lib.Tasks(c)[..k], r);
      }
    }
  }

  /** The log is complete for what is done and has nothing of what has not been used. */
  ghost predicate Kept(lib: Library, s: Progress, log: seq<Emission>) {
    && (forall x <- s.done :: x in lib.codes && lib.Key(x) in s.seen && OfCode(log, x) == Whole(lib, x))
    && forall x :: x in lib.codes && lib.Key(x) !in s.seen ==> OfCode(log, x) == []
  }

  lemma KeptMore(lib: Library, s: Progress, t: Progress, log: seq<Emission>, more: seq<Emission>, c: nat)
    requires Kept(lib, s, log) && Writes(lib, s, t, more, c, [])
    ensures Kept(lib, t, log + more)
  {
    hide OfCode, Whole;
    assert t.done == s.done + t.done[|s.done|..];
    forall x | x in lib.codes
      ensures OfCode(log + more, x) == OfCode(log, x) + OfCode(more, x)
    {
      OfCodeConcat(log, more, x);
    }
  }

  /** Something that has been used is done or on the stack. */
  lemma UsedIsReady(lib: Library, s: Progress, log: seq<Emission>, c: nat, tasks: seq<Task>, stack: seq<nat>, r: nat)
    requires lib.Closed() && c in lib.codes && r in lib.codes && lib.Walking(s, stack + [c])
    requires forall o <- stack + [c] :: lib.Reaches(o, c)
    requires Kept(lib, s, log) && OfCode(log, c) == lib.Emissions(c, tasks) && lib.Key(r) in s.seen
    ensures Ready(lib, log, c, tasks, r) || OnCycle(lib, c, r)
  {
    hide OfCode, Whole, Library.Emissions, Library.Reaches, Library.InOrder, Library.Closed;
    if q :| q in s.done && lib.Key(q) == lib.Key(r) {
      assert log[..|log|] == log;
      assert OfCode(log[..|log|], c) == lib.Emissions(c, tasks) && OfCode(log[..|log|], q) == Whole(lib, q);
    } else {
      var o :| o in stack + [c] && lib.Key(o) == lib.Key(r);
    }
  }

  lemma {:induction false} AllKeepTime(lib: Library, s: Progress, cs: seq<nat>, stack: seq<nat>, log: seq<Emission>)
    requires lib.Closed() && (forall x <- cs :: x in lib.codes) && lib.Walking(s, stack)
    requires forall o, x :: o in stack && x in cs ==> lib.Reaches(o, x)
    requires Kept(lib, s, log) && AllInTime(lib, log, s.done)
    ensures Kept(lib, lib.UseAll(s, cs), log + LogAll(lib, s, cs))
    ensures AllInTime(lib, log + LogAll(lib, s, cs), lib.UseAll(s, cs).done)
    decreases |lib.AllKeys() - s.seen|, 1, |cs|
  {
    hide Kept, AllInTime, Library.Walking, Library.Use, Library.Reaches, LogOne;
    if cs == [] {
      assert log + [] == log;
    } else {
      var t, a := lib.Use(s, cs[0]), LogOne(lib, s, cs[0]);
      lib.UseKeeps(s, cs[0], stack);
      OneKeepsTime(lib, s, cs[0], stack, log);
      lib.NoMoreLeft(s.seen, t.seen);
      AllKeepTime(lib, t, cs[1..], stack, log + a);
      assert log + a + LogAll(lib, t, cs[1..]) == log + LogAll(lib, s, cs);
    }
  }

  lemma {:induction false} OneKeepsTime(lib: Library, s: Progress, c: nat, stack: seq<nat>, log: seq<Emission>)
    requires lib.Closed() && c in lib.codes && lib.Walking(s, stack) && forall o <- stack :: lib.Reaches(o, c)
    requires Kept(lib, s, log) && AllInTime(lib, log, s.done)
    ensures Kept(lib, lib.Use(s, c), log + LogOne(lib, s, c))
    ensures AllInTime(lib, log + LogOne(lib, s, c), lib.Use(s, c).done)
    decreases |lib.AllKeys() - s.seen|, 0, 1
  {
    hide Kept, AllInTime, TasksInTime, OfCode, Library.Walking, Library.UseAll, Library.Reaches, LogAll, LogTasks, LogOne,
      Library.Tasks, Library.Calls, Library.Required, Library.Needs, Library.Emissions;
    if lib.Key(c) in s.seen {
      NothingLogged(lib, s, c);
      assert log + [] == log;
    } else {
      var pushed := Progress(s.seen + {lib.Key(c)}, s.done);
      var t := lib.UseAll(pushed, lib.Required(c));
      var u := lib.UseAll(t, lib.Calls(c, lib.Tasks(c)));
      var a, b := LogAll(lib, pushed, lib.Required(c)), LogTasks(lib, t, c, lib.Tasks(c));
      RequiredInTime(lib, s, c, stack, log);
      lib.FewerLeft(s.seen, c);
      lib.NoMoreLeft(pushed.seen, t.seen);
      TasksKeepTime(lib, t, c, lib.Tasks(c), stack, log + a);
      OnTop(lib, u, stack, c);
      OneDone(lib, u, c, log + a + b);
      OneIs(lib, s, c);
      Regrouped(log, a, b, []);
    }
  }

  lemma {:induction false} RequiredInTime(lib: Library, s: Progress, c: nat, stack: seq<nat>, log: seq<Emission>)
    requires lib.Closed() && c in lib.codes && lib.Walking(s, stack) && forall o <- stack :: lib.Reaches(o, c)
    requires lib.Key(c) !in s.seen && Kept(lib, s, log) && AllInTime(lib, log, s.done)
    ensures var pushed := Progress(s.seen + {lib.Key(c)}, s.done);
      var t, l := lib.UseAll(pushed, lib.Required(c)), log + LogAll(lib, pushed, lib.Required(c));
      && lib.Walking(t, stack + [c]) && Kept(lib, t, l) && AllInTime(lib, l, t.done) && OfCode(l, c) == []
      && forall r <- lib.Required(c) :: lib.Key(r) in t.seen
    decreases |lib.AllKeys() - s.seen|, 0, 0
  {
    hide Kept, AllInTime, OfCode, Writes, Library.Walking, Library.UseAll, Library.Reaches, LogAll, Library.Tasks,
      Library.Calls, Library.Required, Library.Needs;
    var pushed := Progress(s.seen + {lib.Key(c)}, s.done);
    lib.FewerLeft(s.seen, c);
    lib.OpenMore(s, stack, c);
    lib.StackReaches(stack, c);
    RequiredAmong(lib, c);
    KeptPushed(lib, s, c, log);
    lib.UseAllKeeps(pushed, lib.Required(c), stack + [c]);
    AllKeepTime(lib, pushed, lib.Required(c), stack + [c], log);
    AllWrites(lib, pushed, lib.Required(c), c);
    NothingOf(lib, s, lib.UseAll(pushed, lib.Required(c)), log, LogAll(lib, pushed, lib.Required(c)), c);
  }

  lemma NothingLogged(lib: Library, s: Progress, c: nat)
    requires lib.Closed() && c in lib.codes && lib.Key(c) in s.seen
    ensures LogOne(lib, s, c) == []
  {
  }

  lemma RequiredAmong(lib: Library, c: nat)
    requires c in lib.codes
    ensures forall r <- lib.Required(c) :: r in lib.Needs(c)
    ensures forall r <- lib.Calls(c, lib.Tasks(c)) :: r in lib.Needs(c)
  {
    hide Library.Required, Library.Calls, Library.Tasks;
  }

  lemma KeptPushed(lib: Library, s: Progress, c: nat, log: seq<Emission>)
    requires c in lib.codes && Kept(lib, s, log)
    ensures Kept(lib, Progress(s.seen + {lib.Key(c)}, s.done), log)
  {
    hide OfCode, Whole;
  }

  lemma NothingOf(lib: Library, s: Progress, t: Progress, log: seq<Emission>, more: seq<Emission>, c: nat)
    requires c in lib.codes && lib.Key(c) !in s.seen && Kept(lib, s, log)
    requires Writes(lib, Progress(s.seen + {lib.Key(c)}, s.done), t, more, c, [])
    ensures OfCode(log + more, c) == []
  {
    hide OfCode, Whole;
    OfCodeConcat(log, more, c);
  }

  lemma OnStack(lib: Library, stack: seq<nat>, c: nat)
    requires c in lib.codes && forall o <- stack :: lib.Reaches(o, c)
    ensures forall o <- stack + [c] :: lib.Reaches(o, c)
  {
    hide Library.Reaches;
    lib.ReachesSelf(c);
  }

  /** The same for the first tasks of a code. */
  ghost predicate TasksInTime(lib: Library, log: seq<Emission>, c: nat, n: nat)
    requires c in lib.codes && n <= |lib.Tasks(c)|
  {
    forall k: nat, r: nat :: k < n && r in lib.codes && NeededFor(lib, c, k, r) ==>
      Ready(lib, log, c, lib.Tasks(c)[..k], r) || OnCycle(lib, c, r)
  }

  lemma TasksInTimeStay(lib: Library, log: seq<Emission>, more: seq<Emission>, c: nat, n: nat)
    requires c in lib.codes && n <= |lib.Tasks(c)| && TasksInTime(lib, log, c, n)
    ensures TasksInTime(lib, log + more, c, n)
  {
    hide Ready, OnCycle, Library.Tasks, NeededFor;
    forall k: nat, r: nat | k < n && r in lib.codes && NeededFor(lib, c, k, r)
      ensures Ready(lib, log + more, c, lib.Tasks(c)[..k], r) || OnCycle(lib, c, r)
    {
      if Ready(lib, log, c, lib.Tasks(c)[..k], r) {
        ReadyStays(lib, log, more, c, lib.Tasks(c)[..k], r);
      }
    }
  }

  lemma {:induction false} CallsListed(lib: Library, c: nat, tasks: seq<Task>, k: nat)
    requires c in lib.codes && k < |tasks|
    ensures forall r <- lib.CallsOf(c, tasks[k]) :: r in lib.Calls(c, tasks)
    decreases |tasks|
  {
    hide Library.CallsOf;
    if k < |tasks| - 1 {
      CallsListed(lib, c, tasks[..|tasks| - 1], k);
    }
  }

  lemma CallsReached(lib: Library, stack: seq<nat>, c: nat, k: nat)
    requires lib.Closed() && c in lib.codes && k < |lib.Tasks(c)| && forall o <- stack :: lib.Reaches(o, c)
    ensures forall o, r :: o in stack + [c] && r in lib.CallsOf(c, lib.Tasks(c)[k]) ==> lib.Reaches(o, r)
  {
    hide Library.Reaches, Library.CallsOf, Library.Tasks, Library.Calls, Library.Needs, Library.Required;
    CallsListed(lib, c, lib.Tasks(c), k);
    RequiredAmong(lib, c);
    lib.StackReaches(stack, c);
  }

  /** What a task of `c` writes changes nothing for the others. */
  lemma KeptOwn(lib: Library, s: Progress, log: seq<Emission>, c: nat, task: Task, stack: seq<nat>)
    requires c in lib.codes && (task.PutEntry? ==> task.emission.entry.code == c)
    requires Kept(lib, s, log) && lib.Walking(s, stack + [c])
    ensures Kept(lib, s, log + lib.EmissionsOf(c, task))
    ensures OfCode(log + lib.EmissionsOf(c, task), c) == OfCode(log, c) + lib.EmissionsOf(c, task)
  {
    hide OfCode, Whole, Library.EmissionsOf, Library.InOrder;
    assert (stack + [c])[|stack|] == c;
    assert lib.Key(c) in s.seen && c !in s.done;
    forall x | x in lib.codes
      ensures OfCode(log + lib.EmissionsOf(c, task), x) == OfCode(log, x) + if x == c then lib.EmissionsOf(c, task) else []
    {
      OfCodeConcat(log, lib.EmissionsOf(c, task), x);
      OwnEmission(lib, c, task, x);
    }
  }

  lemma NothingNew(lib: Library, s: Progress, t: Progress, log: seq<Emission>, more: seq<Emission>, c: nat)
    requires c in lib.codes && lib.Key(c) in s.seen && Writes(lib, s, t, more, c, [])
    ensures OfCode(log + more, c) == OfCode(log, c)
  {
    hide OfCode, Whole;
    OfCodeConcat(log, more, c);
  }

  lemma {:induction false} TasksKeepTime(lib: Library, s: Progress, c: nat, tasks: seq<Task>, stack: seq<nat>,
                                         log: seq<Emission>)
    requires lib.Closed() && c in lib.codes && lib.Walking(s, stack + [c]) && tasks <= lib.Tasks(c)
    requires (forall o <- stack :: lib.Reaches(o, c)) && forall r <- lib.Required(c) :: lib.Key(r) in s.seen
    requires Kept(lib, s, log) && AllInTime(lib, log, s.done) && OfCode(log, c) == []
    ensures var t, l := lib.UseAll(s, lib.Calls(c, tasks)), log + LogTasks(lib, s, c, tasks);
      && lib.Walking(t, stack + [c]) && Kept(lib, t, l) && AllInTime(lib, l, t.done)
      && OfCode(l, c) == lib.Emissions(c, tasks) && TasksInTime(lib, l, c, |tasks|)
    decreases |lib.AllKeys() - s.seen|, 2, |tasks|
  {
    hide Kept, AllInTime, TasksInTime, Library.Walking, Library.UseAll, Library.Reaches, LogAll, LogTasks, LogOne,
      Library.Tasks, Library.Calls, Library.Required, Library.Needs, OfCode, Library.Emissions;
    if tasks == [] {
      NoTasks(lib, s, c);
      assert log + [] == log;
      NoTaskInTime(lib, log, c);
    } else {
      var n := |tasks| - 1;
      var most, task := tasks[..n], tasks[n];
      var t, l := lib.UseAll(s, lib.Calls(c, most)), log + LogTasks(lib, s, c, most);
      TasksKeepTime(lib, s, c, most, stack, log);
      lib.NoMoreLeft(s.seen, t.seen);
      assert tasks == most + [task] && most == lib.Tasks(c)[..n] && task == lib.Tasks(c)[n];
      var calls := lib.CallsOf(c, task);
      var u, more := lib.UseAll(t, calls), LogAll(lib, t, calls);
      CallsReached(lib, stack, c, n);
      lib.UseAllKeeps(t, calls, stack + [c]);
      AllKeepTime(lib, t, calls, stack + [c], l);
      AllWrites(lib, t, calls, c);
      OnTop(lib, t, stack, c);
      NothingNew(lib, t, u, l, more, c);
      TaskInTime(lib, s, u, l, more, c, n, stack);
      TasksAreOwn(lib, c);
      KeptOwn(lib, u, l + more, c, task, stack);
      InTimeStays(lib, l + more, lib.EmissionsOf(c, task), u.done);
      TasksInTimeStay(lib, l + more, lib.EmissionsOf(c, task), c, n + 1);
      TasksMore(lib, s, c, most, task);
      Regrouped(log, LogTasks(lib, s, c, most), more, lib.EmissionsOf(c, task));
    }
  }

  lemma Regrouped<T>(a: seq<T>, b: seq<T>, c: seq<T>, d: seq<T>)
    ensures a + b + c + d == a + (b + c + d)
    ensures a + b + c == a + (b + c)
  {
  }

  lemma NoTaskInTime(lib: Library, log: seq<Emission>, c: nat)
    requires c in lib.codes
    ensures TasksInTime(lib, log, c, 0)
  {
  }

  lemma OnTop(lib: Library, s: Progress, stack: seq<nat>, c: nat)
    requires lib.Walking(s, stack + [c])
    ensures c in lib.codes && lib.Key(c) in s.seen
  {
    hide Library.InOrder;
    assert c in stack + [c];
  }

  /** The n-th task, whose calls have led to `u`. */
  lemma TaskInTime(lib: Library, s: Progress, u: Progress, log: seq<Emission>, more: seq<Emission>, c: nat, n: nat,
                   stack: seq<nat>)
    requires lib.Closed() && c in lib.codes && n < |lib.Tasks(c)| && lib.Walking(u, stack + [c]) && s.seen <= u.seen
    requires (forall o <- stack :: lib.Reaches(o, c)) && forall r <- lib.Required(c) :: lib.Key(r) in s.seen
    requires forall r <- lib.CallsOf(c, lib.Tasks(c)[n]) :: lib.Key(r) in u.seen
    requires Kept(lib, u, log + more) && OfCode(log + more, c) == lib.Emissions(c, lib.Tasks(c)[..n])
    requires TasksInTime(lib, log, c, n)
    ensures TasksInTime(lib, log + more, c, n + 1)
  {
    hide Kept, Library.Walking, Library.Reaches, Library.Tasks, Library.Required, Library.CallsOf, Ready, OnCycle, OfCode,
      Library.Emissions, Library.Closed;
    TasksInTimeStay(lib, log, more, c, n);
    OnStack(lib, stack, c);
    forall r: nat | r in lib.codes && NeededFor(lib, c, n, r)
      ensures Ready(lib, log + more, c, lib.Tasks(c)[..n], r) || OnCycle(lib, c, r)
    {
      UsedIsReady(lib, u, log + more, c, lib.Tasks(c)[..n], stack, r);
    }
  }

  lemma OneDone(lib: Library, s: Progress, c: nat, log: seq<Emission>)
    requires c in lib.codes && lib.Key(c) in s.seen && Kept(lib, s, log) && AllInTime(lib, log, s.done)
    requires OfCode(log, c) == Whole(lib, c) && TasksInTime(lib, log, c, |lib.Tasks(c)|)
    ensures Kept(lib, Progress(s.seen, s.done + [c]), log) && AllInTime(lib, log, s.done + [c])
  {
    hide OfCode, Whole, Ready, OnCycle, NeededFor, Library.Tasks;
  }

  // ----- Main results -----

  /** After any requests, whatever a section needs had been written in full before the section was, unless it is on a
      cycle with it. */
  lemma ReadyInTime(lib: Library, requests: seq<nat>)
    requires lib.Closed() && lib.Legal(requests)
    ensures AllInTime(lib, LogAll(lib, Progress({}, []), requests), lib.Walk(requests).done)
  {
    hide LogAll, Library.UseAll, Library.Reaches, InTime;
    var start := Progress({}, []);
    assert OfCode([], 0) == [];
    AllKeepTime(lib, start, requests, [], []);
    assert [] + LogAll(lib, start, requests) == LogAll(lib, start, requests);
  }

  /** Without cycles there is no exception. */
  lemma ReadyWithoutCycles(lib: Library, requests: seq<nat>, c: nat, k: nat, r: nat)
    requires lib.Closed() && lib.Legal(requests) && lib.Acyclic() && c in lib.Walk(requests).done && c in lib.codes
    requires k < |lib.Tasks(c)| && r in lib.codes && NeededFor(lib, c, k, r)
    ensures Ready(lib, LogAll(lib, Progress({}, []), requests), c, lib.Tasks(c)[..k], r)
  {
    hide LogAll, Library.Walk, Library.Reaches, Ready, Library.Tasks, Library.Calls, Library.Required, Library.CallsOf;
    ReadyInTime(lib, requests);
    CallsListed(lib, c, lib.Tasks(c), k);
    RequiredAmong(lib, c);
    assert InTime(lib, LogAll(lib, Progress({}, []), requests), c);
  }

  // ----- What a code has to write -----

  /** The shared module has the functions of the code. */
  predicate Supplied(lib: Library, c: nat)
    requires c in lib.codes
  {
    lib.sharedModule && lib.codes[c].exportsFunctions
  }

  predicate NonEmpty(lib: Library, c: nat, part: Part)
    requires c in lib.codes
  {
    part in lib.codes[c].parts && lib.codes[c].parts[part] != ""
  }

  /** Every section that is not empty has to be written; but the code itself only where the shared module does not
      supply it, and what is for cleaning up only on demand. */
  predicate Due(lib: Library, c: nat, part: Part)
    requires c in lib.codes
  {
    && NonEmpty(lib, c, part)
    && (part == Export || part == Impl ==> !Supplied(lib, c))
    && (part == Cleanup ==> lib.generateCleanup)
  }

  function BlockOf(lib: Library, c: nat, part: Part): string
    requires c in lib.codes
  {
    match part
    case Proto => lib.codes[c].protoBlock
    case Export => lib.codes[c].protoBlock
    case Impl => "utility_code_def"
    case Cleanup => "cleanup_globals"
    case StateDecls => "module_state_contents"
    case StateTraverse => "module_state_traverse_contents"
    case StateClear => "module_state_clear_contents"
    case Init => lib.codes[c].initBlock
  }

  /** Whether an entry has to be written to a block: sections that are due, pointers to the functions that the shared
      module supplies, and a check for errors behind initialisation. */
  predicate Belongs(lib: Library, e: Emission) {
    e.entry.code in lib.codes &&
    var c := e.entry.code;
    match e.entry
    case FunctionPointers(_) => Supplied(lib, c) && e.block == lib.codes[c].protoBlock
    case Section(_, part) => Due(lib, c, part) && e.block == BlockOf(lib, c, part)
    case ErrorCheck(_) => NonEmpty(lib, c, Init) && e.block == lib.codes[c].initBlock
  }

  /** The order in which the entries of a code are written. */
  function Rank(e: Entry): nat {
    match e
    case FunctionPointers(_) => 0
    case Section(_, part) => PartRank(part)
    case ErrorCheck(_) => 9
  }

  function PartRank(part: Part): nat {
    match part
    case Proto => 1
    case Export => 2
    case Impl => 3
    case Cleanup => 4
    case StateDecls => 5
    case StateTraverse => 6
    case StateClear => 7
    case Init => 8
  }

  function TaskRank(task: Task): nat {
    match task
    case PutSection(part, _) => PartRank(part)
    case PutEntry(e) => Rank(e.entry)
  }

  ghost predicate Ranked(es: seq<Emission>) {
    forall i, j :: 0 <= i < j < |es| ==> Rank(es[i].entry) < Rank(es[j].entry)
  }

  lemma TasksRanked(lib: Library, c: nat)
    requires c in lib.codes
    ensures var tasks := lib.Tasks(c); forall i, j :: 0 <= i < j < |tasks| ==> TaskRank(tasks[i]) < TaskRank(tasks[j])
  {
    CodeTasksRanked(lib, c);
    StateTasksRanked(lib, c);
  }

  lemma CodeTasksRanked(lib: Library, c: nat)
    requires c in lib.codes
    ensures var tasks := lib.CodeTasks(c);
      (forall i, j :: 0 <= i < j < |tasks| ==> TaskRank(tasks[i]) < TaskRank(tasks[j])) && forall t <- tasks :: TaskRank(t) < 4
  {
  }

  lemma StateTasksRanked(lib: Library, c: nat)
    requires c in lib.codes
    ensures var tasks := lib.StateTasks(c);
      (forall i, j :: 0 <= i < j < |tasks| ==> TaskRank(tasks[i]) < TaskRank(tasks[j])) && forall t <- tasks :: TaskRank(t) >= 4
  {
  }

  /** What tasks write is in their order. */
  lemma {:induction false} EmissionsRanked(lib: Library, c: nat, tasks: seq<Task>)
    requires c in lib.codes && forall i, j :: 0 <= i < j < |tasks| ==> TaskRank(tasks[i]) < TaskRank(tasks[j])
    ensures Ranked(lib.Emissions(c, tasks))
    ensures forall e :: e in lib.Emissions(c, tasks) <==> exists k :: 0 <= k < |tasks| && e in lib.EmissionsOf(c, tasks[k])
  {
    if tasks != [] {
      var n := |tasks| - 1;
      var most, task := tasks[..n], tasks[n];
      EmissionsRanked(lib, c, most);
      forall e
        ensures e in lib.Emissions(c, tasks) <==> exists k :: 0 <= k < |tasks| && e in lib.EmissionsOf(c, tasks[k])
      {
        if k :| 0 <= k < n && e in lib.EmissionsOf(c, most[k]) {
          assert e in lib.EmissionsOf(c, tasks[k]);
        }
        if k :| 0 <= k < |tasks| && e in lib.EmissionsOf(c, tasks[k]) {
          assert k < n ==> e in lib.EmissionsOf(c, most[k]);
        }
      }
      forall e | e in lib.Emissions(c, most)
        ensures Rank(e.entry) < TaskRank(task)
      {
        var k :| 0 <= k < n && e in lib.EmissionsOf(c, most[k]);
        EmissionRank(lib, c, most[k], e);
      }
      forall e | e in lib.EmissionsOf(c, task)
        ensures Rank(e.entry) == TaskRank(task)
      {
        EmissionRank(lib, c, task, e);
      }
    }
  }

  lemma EmissionRank(lib: Library, c: nat, task: Task, e: Emission)
    requires c in lib.codes && e in lib.EmissionsOf(c, task)
    ensures Rank(e.entry) == TaskRank(task)
  {
  }

  lemma OtherRank(lib: Library, c: nat, task: Task, e: Emission)
    requires c in lib.codes
    ensures TaskRank(task) != Rank(e.entry) ==> e !in lib.EmissionsOf(c, task)
  {
  }

  /** The tasks of a code write what belongs to it, and nothing else. */
  lemma TasksAreRight(lib: Library, c: nat, e: Emission)
    requires c in lib.codes
    ensures (exists k :: 0 <= k < |lib.Tasks(c)| && e in lib.EmissionsOf(c, lib.Tasks(c)[k])) <==>
            e.entry.code == c && Belongs(lib, e)
  {
    var tasks := lib.Tasks(c);
    if k :| 0 <= k < |tasks| && e in lib.EmissionsOf(c, tasks[k]) {
      assert tasks[k] in tasks;
      TaskIsRight(lib, c, tasks[k], e);
    }
    if e.entry.code == c && Belongs(lib, e) {
      var task := TaskFor(lib, c, e);
      var k :| 0 <= k < |tasks| && tasks[k] == task;
    }
  }

  lemma TaskIsRight(lib: Library, c: nat, task: Task, e: Emission)
    requires c in lib.codes && task in lib.Tasks(c) && e in lib.EmissionsOf(c, task)
    ensures e.entry.code == c && Belongs(lib, e)
  {
    hide Library.CodeTasks, Library.StateTasks, Library.EmissionsOf, Belongs;
    if task in lib.CodeTasks(c) {
      CodeTaskIsRight(lib, c, task, e);
    } else {
      assert task in lib.StateTasks(c);
      StateTaskIsRight(lib, c, task, e);
    }
  }

  lemma CodeTaskIsRight(lib: Library, c: nat, task: Task, e: Emission)
    requires c in lib.codes && task in lib.CodeTasks(c) && e in lib.EmissionsOf(c, task)
    ensures e.entry.code == c && Belongs(lib, e)
  {
  }

  lemma StateTaskIsRight(lib: Library, c: nat, task: Task, e: Emission)
    requires c in lib.codes && task in lib.StateTasks(c) && e in lib.EmissionsOf(c, task)
    ensures e.entry.code == c && Belongs(lib, e)
  {
    if task.PutSection? {
      assert e == Emission(task.block, Section(c, task.part));
    } else {
      assert e == task.emission;
    }
  }

  lemma TaskFor(lib: Library, c: nat, e: Emission) returns (task: Task)
    requires c in lib.codes && e.entry.code == c && Belongs(lib, e)
    ensures task in lib.Tasks(c) && e in lib.EmissionsOf(c, task)
    ensures e.entry.Section? ==> task == PutSection(e.entry.part, e.block)
  {
    task := if e.entry.Section? then PutSection(e.entry.part, e.block) else PutEntry(e);
    if Rank(e.entry) < 4 {
      assert task in lib.CodeTasks(c);
    } else {
      assert task in lib.StateTasks(c);
    }
  }

  /** After any requests, the log has of every code that is written exactly what belongs to it, each entry once and in
      order; and of the others nothing. */
  lemma WritesWhatBelongs(lib: Library, requests: seq<nat>, c: nat)
    requires lib.Closed() && lib.Legal(requests) && c in lib.codes
    ensures var own := OfCode(LogAll(lib, Progress({}, []), requests), c);
      && Ranked(own)
      && forall e :: e in own <==> c in lib.Walk(requests).done && e.entry.code == c && Belongs(lib, e)
  {
    hide OfCode, LogAll, Library.Walk, Library.Tasks, Belongs, Library.Emissions, Library.EmissionsOf;
    WrittenOnce(lib, requests, c);
    TasksRanked(lib, c);
    EmissionsRanked(lib, c, lib.Tasks(c));
    forall e
      ensures e in Whole(lib, c) <==> e.entry.code == c && Belongs(lib, e)
    {
      TasksAreRight(lib, c, e);
    }
  }

  // ----- What ends up in the blocks -----

  function Own(entries: seq<Entry>, c: nat): seq<Entry> {
    if entries == [] then []
    else
      var e := entries[|entries| - 1];
      Own(entries[..|entries| - 1], c) + (if e.code == c then [e] else [])
  }

  lemma {:induction false} OwnInBlock(log: seq<Emission>, block: string, c: nat)
    ensures Own(InBlock(log, block), c) == InBlock(OfCode(log, c), block)
    decreases |log|
  {
    if log != [] {
      var most, e := log[..|log| - 1], log[|log| - 1];
      OwnInBlock(most, block, c);
      if e.block == block {
        OwnMore(InBlock(most, block), e.entry, c);
      } else {
        assert InBlock(most, block) + [] == InBlock(most, block);
      }
      if e.entry.code == c {
        InBlockMore(OfCode(most, c), e, block);
      } else {
        assert OfCode(most, c) + [] == OfCode(most, c);
      }
    }
  }

  lemma OwnMore(entries: seq<Entry>, e: Entry, c: nat)
    ensures Own(entries + [e], c) == Own(entries, c) + (if e.code == c then [e] else [])
  {
    assert (entries + [e])[..|entries|] == entries;
  }

  ghost predicate InOrder(entries: seq<Entry>) {
    forall i, j :: 0 <= i < j < |entries| ==> Rank(entries[i]) < Rank(entries[j])
  }

  lemma {:induction false} InBlockRanked(es: seq<Emission>, block: string)
    requires Ranked(es)
    ensures InOrder(InBlock(es, block)) && forall e :: e in InBlock(es, block) <==> Emission(block, e) in es
    decreases |es|
  {
    hide InOrder, Ranked;
    if es != [] {
      var most, last := es[..|es| - 1], es[|es| - 1];
      RankedBefore(es);
      InBlockRanked(most, block);
      assert es == most + [last];
      if last.block == block {
        InOrderMore(InBlock(most, block), last.entry);
      } else {
        assert InBlock(es, block) == InBlock(most, block);
      }
    } else {
      NothingInOrder();
    }
  }

  lemma RankedBefore(es: seq<Emission>)
    requires es != [] && Ranked(es)
    ensures var most, last := es[..|es| - 1], es[|es| - 1];
      Ranked(most) && forall e :: e in most ==> Rank(e.entry) < Rank(last.entry)
  {
    hide Rank;
  }

  lemma InOrderMore(entries: seq<Entry>, last: Entry)
    requires InOrder(entries) && forall e :: e in entries ==> Rank(e) < Rank(last)
    ensures InOrder(entries + [last])
  {
    hide Rank;
  }

  lemma NothingInOrder()
    ensures InOrder([])
  {
  }

  /** Every block holds, of every code that is written, exactly the entries that belong there, each once and in order,
      and of no other code anything. */
  ghost predicate HoldsWhatBelongs(lib: Library, parts: map<string, seq<Entry>>, done: seq<nat>) {
    && (forall e :: Belongs(lib, e) ==> e.block in parts)
    && forall b, c :: b in parts && c in lib.codes ==>
         && InOrder(Own(parts[b], c))
         && forall e :: e in Own(parts[b], c) <==> c in done && e.code == c && Belongs(lib, Emission(b, e))
  }

  lemma PartsAreRight(lib: Library, parts: map<string, seq<Entry>>, requests: seq<nat>)
    requires lib.Closed() && lib.Legal(requests) && Laid(lib, parts, LogAll(lib, Progress({}, []), requests))
    ensures HoldsWhatBelongs(lib, parts, lib.Walk(requests).done)
  {
    hide OfCode, LogAll, Library.Walk, InBlock, Own, Blocks, Ranked, InOrder;
    var log := LogAll(lib, Progress({}, []), requests);
    BlockNames(lib);
    forall b, c | b in parts && c in lib.codes
      ensures InOrder(Own(parts[b], c))
      ensures forall e :: e in Own(parts[b], c) <==>
                c in lib.Walk(requests).done && e.code == c && Belongs(lib, Emission(b, e))
    {
      hide Belongs;
      OwnInBlock(log, b, c);
      WritesWhatBelongs(lib, requests, c);
      InBlockRanked(OfCode(log, c), b);
    }
  }

  // ----- What a code needs, and when -----

  /** What `c` requires where the shared module does not supply it, and what the macros of a section request that is
      due. */
  predicate Asks(lib: Library, c: nat, r: nat)
    requires c in lib.codes
  {
    (!Supplied(lib, c) && r in lib.codes[c].needs) || exists part :: AsksFor(lib, c, part, r)
  }

  predicate AsksFor(lib: Library, c: nat, part: Part, r: nat)
    requires c in lib.codes
  {
    Due(lib, c, part) && part in lib.codes[c].macros && r in lib.codes[c].macros[part]
  }

  lemma {:induction false} CallsFrom(lib: Library, c: nat, tasks: seq<Task>, r: nat) returns (k: nat)
    requires c in lib.codes && r in lib.Calls(c, tasks)
    ensures k < |tasks| && r in lib.CallsOf(c, tasks[k])
    decreases |tasks|
  {
    hide Library.CallsOf;
    k := |tasks| - 1;
    if r !in lib.CallsOf(c, tasks[k]) {
      k := CallsFrom(lib, c, tasks[..k], r);
    }
  }

  lemma TaskAsks(lib: Library, c: nat, task: Task, r: nat)
    requires c in lib.codes && task in lib.Tasks(c) && r in lib.CallsOf(c, task)
    ensures task.PutSection? && AsksFor(lib, c, task.part, r)
  {
    var e := Emission(task.block, Section(c, task.part));
    assert e in lib.EmissionsOf(c, task);
    TaskIsRight(lib, c, task, e);
  }

  lemma AsksTask(lib: Library, c: nat, part: Part, r: nat) returns (task: Task)
    requires c in lib.codes && AsksFor(lib, c, part, r)
    ensures task in lib.Tasks(c) && r in lib.CallsOf(c, task) && task == PutSection(part, BlockOf(lib, c, part))
  {
    task := TaskFor(lib, c, Emission(BlockOf(lib, c, part), Section(c, part)));
  }

  /** The needs over which the walk closes are these. */
  lemma NeedsAreAsked(lib: Library, c: nat, r: nat)
    requires c in lib.codes
    ensures r in lib.Needs(c) <==> Asks(lib, c, r)
  {
    hide Library.Tasks, Library.Calls, Library.CallsOf, AsksFor;
    if r in lib.Calls(c, lib.Tasks(c)) {
      var k := CallsFrom(lib, c, lib.Tasks(c), r);
      TaskAsks(lib, c, lib.Tasks(c)[k], r);
    }
    if part :| AsksFor(lib, c, part, r) {
      var task := AsksTask(lib, c, part, r);
      var k :| 0 <= k < |lib.Tasks(c)| && lib.Tasks(c)[k] == task;
      CallsListed(lib, c, lib.Tasks(c), k);
    }
  }

  /** At some point all that belongs to something equal to `r` had been written, and `e` had not. */
  ghost predicate WrittenBefore(lib: Library, log: seq<Emission>, r: nat, e: Emission)
    requires r in lib.codes
  {
    exists n: nat, q: nat ::
      && n <= |log| && q in lib.codes && lib.Key(q) == lib.Key(r) && e !in log[..n]
      && forall f :: Belongs(lib, f) && f.entry.code == q ==> f in log[..n]
  }

  lemma {:induction false} OfCodeMember(log: seq<Emission>, c: nat, e: Emission)
    ensures e in OfCode(log, c) <==> e in log && e.entry.code == c
    decreases |log|
  {
    if log != [] {
      OfCodeMember(log[..|log| - 1], c, e);
      assert log == log[..|log| - 1] + [log[|log| - 1]];
    }
  }

  lemma ReadyIsBefore(lib: Library, log: seq<Emission>, c: nat, k: nat, r: nat, e: Emission)
    requires c in lib.codes && r in lib.codes && k <= |lib.Tasks(c)| && Ready(lib, log, c, lib.Tasks(c)[..k], r)
    requires e.entry.code == c && forall i :: 0 <= i < k ==> e !in lib.EmissionsOf(c, lib.Tasks(c)[i])
    ensures WrittenBefore(lib, log, r, e)
  {
    hide OfCode, Library.Tasks, Library.EmissionsOf, Library.Emissions, Belongs;
    var tasks := lib.Tasks(c)[..k];
    var n: nat, q: nat :|
      && n <= |log| && q in lib.codes && lib.Key(q) == lib.Key(r)
      && OfCode(log[..n], c) == lib.Emissions(c, tasks) && OfCode(log[..n], q) == Whole(lib, q);
    TasksRanked(lib, c);
    EmissionsRanked(lib, c, tasks);
    OfCodeMember(log[..n], c, e);
    forall f | Belongs(lib, f) && f.entry.code == q
      ensures f in log[..n]
    {
      TasksRanked(lib, q);
      EmissionsRanked(lib, q, lib.Tasks(q));
      TasksAreRight(lib, q, f);
      OfCodeMember(log[..n], q, f);
    }
  }

  /** Whatever a code requires had been written before anything of the code was, and what the macros of a section
      request, before that section; unless it is on a cycle with the code. */
  lemma WrittenInTime(lib: Library, requests: seq<nat>, c: nat, r: nat, e: Emission)
    requires lib.Closed() && lib.Legal(requests) && c in lib.Walk(requests).done && c in lib.codes && r in lib.codes
    requires Belongs(lib, e) && e.entry.code == c
    requires (!Supplied(lib, c) && r in lib.codes[c].needs) || (e.entry.Section? && AsksFor(lib, c, e.entry.part, r))
    ensures WrittenBefore(lib, LogAll(lib, Progress({}, []), requests), r, e) || OnCycle(lib, c, r)
  {
    hide LogAll, Library.Walk, Library.Tasks, Library.EmissionsOf, Library.CallsOf, Ready, OnCycle, WrittenBefore, Belongs;
    ReadyInTime(lib, requests);
    var log, tasks := LogAll(lib, Progress({}, []), requests), lib.Tasks(c);
    assert InTime(lib, log, c);
    var k := NeededAt(lib, c, r, e);
    if Ready(lib, log, c, tasks[..k], r) {
      ReadyIsBefore(lib, log, c, k, r, e);
    }
  }

  lemma NeededAt(lib: Library, c: nat, r: nat, e: Emission) returns (k: nat)
    requires c in lib.codes && Belongs(lib, e) && e.entry.code == c
    requires (!Supplied(lib, c) && r in lib.codes[c].needs) || (e.entry.Section? && AsksFor(lib, c, e.entry.part, r))
    ensures k < |lib.Tasks(c)| && NeededFor(lib, c, k, r)
    ensures forall i :: 0 <= i < k ==> e !in lib.EmissionsOf(c, lib.Tasks(c)[i])
  {
    hide Library.Tasks, Library.EmissionsOf, Library.CallsOf, Belongs, Due;
    var task := TaskFor(lib, c, e);
    if !Supplied(lib, c) && r in lib.codes[c].needs {
      k := 0;
    } else {
      var asked := AsksTask(lib, c, e.entry.part, r);
      k :| 0 <= k < |lib.Tasks(c)| && lib.Tasks(c)[k] == asked;
      TasksRanked(lib, c);
      forall i | 0 <= i < k
        ensures e !in lib.EmissionsOf(c, lib.Tasks(c)[i])
      {
        OtherRank(lib, c, lib.Tasks(c)[i], e);
      }
    }
  }

  // ----- The global state of a module -----

  datatype Option<+T> = None | Some(value: T)

  class GlobalState {
    const lib: Library
    var utilityCodes: set<Parts>
    var parts: map<string, seq<Entry>>
    ghost var done: seq<nat>
    ghost var log: seq<Emission>

    constructor (lib: Library)
      requires lib.Closed()
      ensures Valid() && this.lib == lib && Current() == Progress({}, []) && log == []
    {
      this.lib, utilityCodes, done, log := lib, {}, [], [];
      parts := map b | b in Blocks(lib) :: [];
    }

    ghost function Current(): Progress
      reads this
    {
      Progress(utilityCodes, done)
    }

    ghost predicate Valid()
      reads this
    {
      lib.Closed() && Laid(lib, parts, log)
    }

    method UseUtilityCode(code: Option<nat>)
      requires Valid() && (code.Some? ==> code.value in lib.codes)
      modifies this
      ensures Valid()
      ensures Current() == match code case None => old(Current()) case Some(c) => lib.Use(old(Current()), c)
      ensures log == match code case None => old(log) case Some(c) => old(log) + LogOne(lib, old(Current()), c)
      decreases |lib.AllKeys() - utilityCodes|, 0
    {
      hide Laid, Library.UseAll, LogAll, LogTasks, Library.Tasks, Library.Calls, Library.Required, Library.Needs;
      if code.Some? && lib.codes[code.value].parts !in utilityCodes {
        OneIs(lib, Current(), code.value);
        lib.FewerLeft(utilityCodes, code.value);
        utilityCodes := utilityCodes + {lib.codes[code.value].parts};
        PutCode(code.value);
      }
    }

    method UseEach(codes: seq<nat>)
      requires Valid() && forall c <- codes :: c in lib.codes
      modifies this
      ensures Valid()
      ensures Current() == lib.UseAll(old(Current()), codes) && log == old(log) + LogAll(lib, old(Current()), codes)
      decreases |lib.AllKeys() - utilityCodes|, 1
    {
      hide Laid, Library.Use, LogOne;
      ghost var start := Current();
      for i := 0 to |codes|
        invariant Valid() && old(utilityCodes) <= utilityCodes
        invariant lib.UseAll(Current(), codes[i..]) == lib.UseAll(start, codes)
        invariant log + LogAll(lib, Current(), codes[i..]) == old(log) + LogAll(lib, start, codes)
      {
        lib.NoMoreLeft(old(utilityCodes), utilityCodes);
        ghost var s, before := Current(), log;
        UseUtilityCode(Some(codes[i]));
        assert codes[i..][0] == codes[i] && codes[i..][1..] == codes[i + 1..];
        Regrouped(before, LogOne(lib, s, codes[i]), LogAll(lib, Current(), codes[i + 1..]), []);
      }
    }

    /** Puts the code after what it requires. */
    method PutCode(c: nat)
      requires Valid() && c in lib.codes
      modifies this
      ensures Valid()
      ensures var t := lib.UseAll(old(Current()), lib.Required(c));
        var u := lib.UseAll(t, lib.Calls(c, lib.Tasks(c)));
        && Current() == Progress(u.seen, u.done + [c])
        && log == old(log) + (LogAll(lib, old(Current()), lib.Required(c)) + LogTasks(lib, t, c, lib.Tasks(c)))
      decreases |lib.AllKeys() - utilityCodes|, 6
    {
      hide Laid, Library.UseAll, LogAll, LogTasks, Library.Tasks, Library.Calls;
      var code := lib.codes[c];
      if !(code.exportsFunctions && lib.sharedModule) {
        UseEach(code.needs);
      } else {
        NothingUsed(lib, Current());
      }
      lib.NoMoreLeft(old(utilityCodes), utilityCodes);
      PutSections(c);
      done := done + [c];
    }

    /** Everything of `c` itself, and what its macros request. */
    method PutSections(c: nat)
      requires Valid() && c in lib.codes
      modifies this
      ensures Valid()
      ensures Current() == lib.UseAll(old(Current()), lib.Calls(c, lib.Tasks(c)))
      ensures log == old(log) + LogTasks(lib, old(Current()), c, lib.Tasks(c))
      decreases |lib.AllKeys() - utilityCodes|, 5
    {
      hide Laid, Library.UseAll, LogAll, LogTasks, Library.Calls, Library.CodeTasks, Library.StateTasks, Library.AllKeys,
        Library.Closed;
      ghost var tasks := [];
      NoTasks(lib, Current(), c);
      assert log + [] == log;
      ghost var start, before := Current(), log;
      tasks := PutCodeSections(start, before, tasks, c);
      lib.NoMoreLeft(old(utilityCodes), utilityCodes);
      tasks := PutStateSections(start, before, tasks, c);
      assert tasks == lib.Tasks(c);
    }

    /** Where the state is after some tasks of `c`. */
    ghost predicate After(start: Progress, before: seq<Emission>, c: nat, tasks: seq<Task>)
      requires lib.Closed() && c in lib.codes
      reads this
    {
      Current() == lib.UseAll(start, lib.Calls(c, tasks)) && log == before + LogTasks(lib, start, c, tasks)
    }

    method PutCodeSections(ghost start: Progress, ghost before: seq<Emission>, ghost tasks: seq<Task>, c: nat)
      returns (ghost tasks': seq<Task>)
      requires Valid() && c in lib.codes && After(start, before, c, tasks)
      modifies this
      ensures Valid() && tasks' == tasks + lib.CodeTasks(c) && After(start, before, c, tasks')
      ensures old(utilityCodes) <= utilityCodes
      decreases |lib.AllKeys() - utilityCodes|, 3
    {
      hide Laid, GlobalState.After, Blocks, Library.AllKeys, Library.Closed;
      BlockNames(lib);
      tasks' := tasks;
      var block, shared := lib.codes[c].protoBlock, lib.codes[c].exportsFunctions && lib.sharedModule;
      if shared {
        tasks' := PutOther(start, before, tasks', c, Emission(block, FunctionPointers(c)));
      }
      tasks' := PutCodeSection(start, before, tasks', c, Proto, block);
      if !shared {
        lib.NoMoreLeft(old(utilityCodes), utilityCodes);
        tasks' := PutCodeSection(start, before, tasks', c, Export, block);
        lib.NoMoreLeft(old(utilityCodes), utilityCodes);
        tasks' := PutCodeSection(start, before, tasks', c, Impl, "utility_code_def");
      }
    }

    method PutStateSections(ghost start: Progress, ghost before: seq<Emission>, ghost tasks: seq<Task>, c: nat)
      returns (ghost tasks': seq<Task>)
      requires Valid() && c in lib.codes && After(start, before, c, tasks)
      modifies this
      ensures Valid() && tasks' == tasks + lib.StateTasks(c) && After(start, before, c, tasks')
      ensures old(utilityCodes) <= utilityCodes
      decreases |lib.AllKeys() - utilityCodes|, 4
    {
      hide Laid, GlobalState.After, Blocks, Library.AllKeys, Library.Closed;
      BlockNames(lib);
      tasks' := tasks;
      if lib.generateCleanup {
        tasks' := PutCodeSection(start, before, tasks', c, Cleanup, "cleanup_globals");
      }
      lib.NoMoreLeft(old(utilityCodes), utilityCodes);
      tasks' := PutModuleState(start, before, tasks', c);
      lib.NoMoreLeft(old(utilityCodes), utilityCodes);
      tasks' := PutCodeSection(start, before, tasks', c, Init, lib.codes[c].initBlock);
      if lib.Has(c, Init) {
        tasks' := PutOther(start, before, tasks', c, Emission(lib.codes[c].initBlock, ErrorCheck(c)));
      }
    }

    method PutModuleState(ghost start: Progress, ghost before: seq<Emission>, ghost tasks: seq<Task>, c: nat)
      returns (ghost tasks': seq<Task>)
      requires Valid() && c in lib.codes && After(start, before, c, tasks)
      modifies this
      ensures Valid() && After(start, before, c, tasks')
      ensures tasks' == tasks + [PutSection(StateDecls, "module_state_contents"),
                                 PutSection(StateTraverse, "module_state_traverse_contents"),
                                 PutSection(StateClear, "module_state_clear_contents")]
      ensures old(utilityCodes) <= utilityCodes
      decreases |lib.AllKeys() - utilityCodes|, 3
    {
      hide Laid, GlobalState.After, Blocks, Library.AllKeys, Library.Closed;
      BlockNames(lib);
      tasks' := PutCodeSection(start, before, tasks, c, StateDecls, "module_state_contents");
      lib.NoMoreLeft(old(utilityCodes), utilityCodes);
      tasks' := PutCodeSection(start, before, tasks', c, StateTraverse, "module_state_traverse_contents");
      lib.NoMoreLeft(old(utilityCodes), utilityCodes);
      tasks' := PutCodeSection(start, before, tasks', c, StateClear, "module_state_clear_contents");
    }

    /** A section, if there is one, after what its macros request. */
    method PutCodeSection(ghost start: Progress, ghost before: seq<Emission>, ghost tasks: seq<Task>, c: nat, part: Part,
                          block: string)
      returns (ghost tasks': seq<Task>)
      requires Valid() && c in lib.codes && block in Blocks(lib) && After(start, before, c, tasks)
      modifies this
      ensures Valid() && tasks' == tasks + [PutSection(part, block)] && After(start, before, c, tasks')
      ensures old(utilityCodes) <= utilityCodes
      decreases |lib.AllKeys() - utilityCodes|, 2
    {
      hide Laid, Library.UseAll, LogAll, LogTasks, Library.Calls;
      ghost var task := PutSection(part, block);
      ghost var s := Current();
      if lib.Has(c, part) {
        if part in lib.codes[c].macros {
          UseEach(lib.codes[c].macros[part]);
        } else {
          NothingUsed(lib, s);
        }
        Emit(Emission(block, Section(c, part)));
      } else {
        NothingUsed(lib, s);
      }
      tasks' := tasks + [task];
      TasksMore(lib, start, c, tasks, task);
      Regrouped(before, LogTasks(lib, start, c, tasks), LogAll(lib, s, lib.CallsOf(c, task)), lib.EmissionsOf(c, task));
    }

    method PutOther(ghost start: Progress, ghost before: seq<Emission>, ghost tasks: seq<Task>, c: nat, e: Emission)
      returns (ghost tasks': seq<Task>)
      requires Valid() && c in lib.codes && e.block in Blocks(lib) && After(start, before, c, tasks)
      modifies this`parts, this`log
      ensures Valid() && tasks' == tasks + [PutEntry(e)] && After(start, before, c, tasks')
    {
      hide Laid, Library.UseAll, LogAll, LogTasks, Library.Calls;
      ghost var s := Current();
      Emit(e);
      tasks' := tasks + [PutEntry(e)];
      NothingUsed(lib, s);
      TasksMore(lib, start, c, tasks, PutEntry(e));
      Regrouped(before, LogTasks(lib, start, c, tasks), [], [e]);
    }

    method Emit(e: Emission)
      requires Valid() && e.block in Blocks(lib)
      modifies this`parts, this`log
      ensures Valid() && log == old(log) + [e]
    {
      LaidMore(lib, parts, log, e);
      parts := parts[e.block := parts[e.block] + [e.entry]];
      log := log + [e];
    }
  }

  lemma NothingUsed(lib: Library, s: Progress)
    requires lib.Closed()
    ensures lib.UseAll(s, []) == s && LogAll(lib, s, []) == []
    ensures forall log: seq<Emission> :: log + [] == log
  {
  }

  /** A module for which some utility code is requested. */
  method Generate(lib: Library, requests: seq<nat>) returns (state: GlobalState)
    requires lib.Closed() && lib.Legal(requests)
    ensures fresh(state) && state.lib == lib && state.utilityCodes == lib.Walk(requests).seen
    ensures HoldsWhatBelongs(lib, state.parts, lib.Walk(requests).done)
  {
    hide LogAll, Library.UseAll, HoldsWhatBelongs, Laid;
    state := new GlobalState(lib);
    state.UseEach(requests);
    assert [] + LogAll(lib, Progress({}, []), requests) == LogAll(lib, Progress({}, []), requests);
    PartsAreRight(lib, state.parts, requests);
  }
}
