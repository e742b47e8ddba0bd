/** The allocator for C temporaries of a function (`FunctionState` in Cython/Compiler/Code.py). */
module TempNames {
  import opened Decimals

  datatype CType =
    | Basic(name: string, refcounted: bool)
    | Qualified(base: CType)
    | Reference(base: CType, fake: bool)
    | Function(name: string)
    | Pointer(base: CType)
  {
    predicate Refcounted() {
      match this
      case Basic(_, r) => r
      case Qualified(b) => b.Refcounted()
      case Reference(b, _) => b.Refcounted()
      case Function(_) => false
      case Pointer(_) => false
    }

    /** The type a temporary for this one is declared with. */
    function Stored(): CType {
      match this
      case Qualified(b) => b
      case Reference(b, fake) => if fake then this else b
      case Function(_) => Pointer(this)
      case _ => this
    }
  }

  /** What can be assigned to as a whole: no constant, no function, and a reference only if it is a fake one. */
  predicate Assignable(t: CType) {
    !t.Qualified? && !t.Function? && (t.Reference? ==> t.fake)
  }

  /** The type without qualifiers and references. */
  function Core(t: CType): CType {
    match t
    case Qualified(b) => Core(b)
    case Reference(b, _) => Core(b)
    case _ => t
  }

  /** Qualifiers and references stand directly on other types, and not on functions. */
  predicate Simple(t: CType) {
    match t
    case Qualified(b) => !b.Qualified? && !b.Reference? && !b.Function?
    case Reference(b, _) => !b.Qualified? && !b.Reference? && !b.Function?
    case _ => true
  }

  /** A temporary can be assigned to and holds the same values, through a pointer if these are functions; fake
      references, which are stored as such, are left alone. */
  lemma StoredIsAssignable(t: CType)
    requires Simple(t)
    ensures Assignable(t.Stored()) && Core(t.Stored()) == if t.Function? then Pointer(t) else Core(t)
    ensures t.Stored() == t <==> Assignable(t)
  {
  }

  /** The kind of a temporary: its type and whether its reference is managed. */
  datatype Kind = Kind(ctype: CType, manageRef: bool)

  datatype Temp = Temp(name: string, kind: Kind, isStatic: bool)

  /** Names to hand out again, last one first, and all names released. */
  datatype FreeList = FreeList(order: seq<string>, released: set<string>)

  datatype Result<+T> = Ok(value: T) | KeyError | FreedTwice

  const TEMP_PREFIX := "__pyx_t_"

  function TempName(n: nat): string {
    TEMP_PREFIX + Digits(n)
  }

  lemma TempNamesDiffer(m: nat, n: nat)
    ensures TempName(m) == TempName(n) ==> m == n
  {
    DigitsInjective(m, n);
    assert TempName(m)[|TEMP_PREFIX|..] == Digits(m) && TempName(n)[|TEMP_PREFIX|..] == Digits(n);
  }

  function NamesUpTo(n: nat): set<string> {
    set k | 1 <= k <= n :: TempName(k)
  }

  lemma NextIsNew(taken: set<string>, n: nat)
    requires TempName(n + 1) in taken
    ensures |taken - NamesUpTo(n + 1)| < |taken - NamesUpTo(n)|
  {
    forall k | 1 <= k <= n
      ensures TempName(k) != TempName(n + 1)
    {
      TempNamesDiffer(k, n + 1);
    }
    assert taken - NamesUpTo(n + 1) == (taken - NamesUpTo(n)) - {TempName(n + 1)};
  }

  /** The counter at which the search for a name that is not taken stops. */
  function NextFree(taken: set<string>, counter: nat): (n: nat)
    ensures n > counter && TempName(n) !in taken && forall k :: counter < k < n ==> TempName(k) in taken
    decreases |taken - NamesUpTo(counter)|
  {
    if TempName(counter + 1) !in taken then counter + 1
    else (NextIsNew(taken, counter); NextFree(taken, counter + 1))
  }

  function KindFor(ctype: CType, manageRef: bool): Kind {
    Kind(ctype.Stored(), manageRef && ctype.Stored().Refcounted())
  }

  /** Whether a reference is managed makes a difference exactly where references are counted; elsewhere it never is. */
  lemma KindsDiffer(ctype: CType, a: bool, b: bool)
    ensures KindFor(ctype, a) == KindFor(ctype, b) <==> a == b || !ctype.Stored().Refcounted()
    ensures KindFor(ctype, a).manageRef ==> a
  {
  }

  predicate Numbered(name: string, n: nat, counter: nat) {
    1 <= n <= counter && name == TempName(n)
  }

  ghost predicate NamesValid(taken: set<string>, counter: nat, temps: seq<Temp>, usedType: map<string, Kind>,
                             zombies: set<string>) {
    && (forall t <- temps :: t.name !in taken && t.name in usedType && usedType[t.name] == t.kind)
    && (forall name <- usedType :: exists t :: t in temps && t.name == name)
    && (forall name <- usedType :: exists n :: Numbered(name, n, counter))
    && (forall i, j :: 0 <= i < j < |temps| ==> temps[i].name != temps[j].name)
    && (forall z <- zombies :: z in usedType)
  }

  ghost predicate ListsValid(free: map<Kind, FreeList>, usedType: map<string, Kind>, zombies: set<string>) {
    forall kind <- free :: ListValid(kind, free[kind], usedType, zombies)
  }

  ghost predicate ListValid(kind: Kind, f: FreeList, usedType: map<string, Kind>, zombies: set<string>) {
    && (forall name <- f.released :: name in usedType && usedType[name] == kind)
    && (forall name <- f.order :: name in f.released && name !in zombies)
    && (forall name <- f.released :: name !in zombies ==> name in f.order)
    && (forall i, j :: 0 <= i < j < |f.order| ==> f.order[i] != f.order[j])
  }

  lemma Popped(kind: Kind, f: FreeList, usedType: map<string, Kind>, zombies: set<string>)
    requires ListValid(kind, f, usedType, zombies) && f.order != []
    ensures ListValid(kind, FreeList(f.order[..|f.order| - 1], f.released - {f.order[|f.order| - 1]}), usedType, zombies)
  {
    var name, rest := f.order[|f.order| - 1], f.order[..|f.order| - 1];
    assert f.order == rest + [name];
  }

  lemma Pushed(kind: Kind, f: FreeList, usedType: map<string, Kind>, zombies: set<string>, name: string)
    requires ListValid(kind, f, usedType, zombies) && name in usedType && usedType[name] == kind && name !in f.released
    ensures ListValid(kind, FreeList(if name in zombies then f.order else f.order + [name], f.released + {name}), usedType,
                      zombies)
  {
  }

  lemma NamesMore(taken: set<string>, counter: nat, temps: seq<Temp>, usedType: map<string, Kind>, zombies: set<string>,
                  n: nat, created: Temp, zombies': set<string>)
    requires NamesValid(taken, counter, temps, usedType, zombies) && n > counter
    requires created.name == TempName(n) && created.name !in usedType && created.name !in taken
    requires zombies' == zombies || zombies' == zombies + {created.name}
    ensures NamesValid(taken, n, temps + [created], usedType[created.name := created.kind], zombies')
  {
    var temps', usedType' := temps + [created], usedType[created.name := created.kind];
    assert temps'[|temps|] == created && Numbered(created.name, n, n);
    forall name | name in usedType'
      ensures exists k :: Numbered(name, k, n)
      ensures exists t :: t in temps' && t.name == name
    {
      if name != created.name {
        var k :| Numbered(name, k, counter);
        assert Numbered(name, k, n);
        var t :| t in temps && t.name == name;
        assert t in temps';
      } else {
        assert created in temps';
      }
    }
    forall i | 0 <= i < |temps|
      ensures temps[i].name != created.name
    {
      assert temps[i] in temps;
    }
  }

  lemma ListsMore(free: map<Kind, FreeList>, usedType: map<string, Kind>, zombies: set<string>, name: string, kind: Kind,
                  zombies': set<string>)
    requires ListsValid(free, usedType, zombies) && name !in usedType
    requires zombies' == zombies || zombies' == zombies + {name}
    ensures ListsValid(free, usedType[name := kind], zombies')
  {
    forall k | k in free
      ensures ListValid(k, free[k], usedType[name := kind], zombies')
    {
      assert ListValid(k, free[k], usedType, zombies);
    }
  }

  /** The allocator's state. */
  datatype Temps = Temps(taken: set<string>, counter: nat, temps: seq<Temp>, free: map<Kind, FreeList>,
                         usedType: map<string, Kind>, zombies: set<string>)
  {
    function FreeOf(kind: Kind): FreeList {
      if kind in free then free[kind] else FreeList([], {})
    }

    function Allocate(kind: Kind, isStatic: bool, reusable: bool): (r: (Temps, string)) {
      var f := FreeOf(kind);
      if reusable && f.order != [] then
        var name := f.order[|f.order| - 1];
        (this.(free := free[kind := FreeList(f.order[..|f.order| - 1], f.released - {name})],
               usedType := usedType[name := kind]), name)
      else
        var n := NextFree(taken, counter);
        (this.(counter := n, temps := temps + [Temp(TempName(n), kind, isStatic)],
               zombies := if reusable then zombies else zombies + {TempName(n)},
               usedType := usedType[TempName(n) := kind]), TempName(n))
    }

    function Release(name: string): Result<Temps> {
      if name !in usedType then KeyError
      else
        var kind := usedType[name];
        var f := FreeOf(kind);
        if name in f.released then FreedTwice
        else Ok(this.(free := free[kind := FreeList(if name in zombies then f.order else f.order + [name], f.released + {name})]))
    }

    // ----- What the state stands for -----

    predicate InUse(t: Temp) {
      t.name !in FreeOf(t.kind).released
    }

    /** The names handed out and not given back. */
    function Held(): set<string> {
      set t | t in temps && InUse(t) :: t.name
    }

    /** Every temporary has one number, one kind and one place: in use, in the free list of its kind, or, if it
        must not be reused, released for good. */
    ghost predicate Valid() {
      NamesValid(taken, counter, temps, usedType, zombies) && ListsValid(free, usedType, zombies)
    }

    lemma HeldExactly(name: string)
      requires Valid()
      ensures name in Held() <==> name in usedType && name !in FreeOf(usedType[name]).released
    {
      if name in usedType {
        var t :| t in temps && t.name == name;
        assert usedType[t.name] == t.kind;
      }
    }

    lemma FreeIsKnown(kind: Kind)
      requires Valid()
      ensures ListValid(kind, FreeOf(kind), usedType, zombies)
    {
    }

    /** Names found by the search are new. */
    lemma NextFreeIsNew()
      requires Valid()
      ensures TempName(NextFree(taken, counter)) !in usedType && TempName(NextFree(taken, counter)) !in taken
    {
      var n := NextFree(taken, counter);
      forall name | name in usedType
        ensures name != TempName(n)
      {
        var k :| Numbered(name, k, counter);
        TempNamesDiffer(k, n);
      }
    }

    lemma ReuseKeepsValid(kind: Kind)
      requires Valid() && FreeOf(kind).order != []
      ensures Allocate(kind, false, true).0.Valid()
    {
      hide NamesValid;
      FreeIsKnown(kind);
      var f := FreeOf(kind);
      var name := f.order[|f.order| - 1];
      assert name in f.order && usedType[name := kind] == usedType;
      Popped(kind, f, usedType, zombies);
    }

    lemma NewKeepsValid(kind: Kind, isStatic: bool, reusable: bool)
      requires Valid() && (reusable ==> FreeOf(kind).order == [])
      ensures Allocate(kind, isStatic, reusable).0.Valid()
    {
      hide NamesValid, ListsValid, NextFree;
      NextFreeIsNew();
      var n := NextFree(taken, counter);
      var zombies' := if reusable then zombies else zombies + {TempName(n)};
      NamesMore(taken, counter, temps, usedType, zombies, n, Temp(TempName(n), kind, isStatic), zombies');
      ListsMore(free, usedType, zombies, TempName(n), kind, zombies');
    }

    /** A name handed out is not in use, not taken by anything else, and was handed out before only if it has the
        same kind and may be reused; nothing else changes hands. */
    lemma AllocateGivesFree(kind: Kind, isStatic: bool, reusable: bool)
      requires Valid()
      ensures var (s, name) := Allocate(kind, isStatic, reusable);
              && s.Valid() && s.Held() == Held() + {name}
              && name !in Held() && name !in taken && s.taken == taken && name !in zombies
              && s.usedType == usedType[name := kind]
              && (name in usedType ==> usedType[name] == kind && reusable)
              && s.zombies == (if reusable then zombies else zombies + {name})
    {
      hide Temps.Valid, Temps.Held, NamesValid, ListsValid;
      var f := FreeOf(kind);
      var (s, name) := Allocate(kind, isStatic, reusable);
      if reusable && f.order != [] {
        ReuseKeepsValid(kind);
        ReusedName(kind);
      } else {
        NewKeepsValid(kind, isStatic, reusable);
        NextFreeIsNew();
        NewNotReleased(name, kind);
      }
      FreeIsKnown(kind);
      forall x: string
        ensures x in s.Held() <==> x in Held() + {name}
        ensures name !in Held()
      {
        HeldExactly(x);
        HeldExactly(name);
        s.HeldExactly(x);
        NewNotReleased(x, kind);
        NewNotReleased(name, kind);
      }
    }

    lemma ReusedName(kind: Kind)
      requires Valid() && FreeOf(kind).order != []
      ensures var name := FreeOf(kind).order[|FreeOf(kind).order| - 1];
              && name in usedType && usedType[name] == kind && name in FreeOf(kind).released
              && name !in zombies && name !in taken
    {
      FreeIsKnown(kind);
      var name := FreeOf(kind).order[|FreeOf(kind).order| - 1];
      assert name in FreeOf(kind).order;
      var t :| t in temps && t.name == name;
    }

    /** A name that was never handed out is in no free list. */
    lemma NewNotReleased(name: string, kind: Kind)
      requires Valid()
      ensures name !in usedType ==> name !in FreeOf(kind).released && name !in zombies
      ensures name in FreeOf(kind).released ==> usedType[name] == kind
    {
      FreeIsKnown(kind);
    }

    lemma ReleaseKeepsValid(name: string)
      requires Valid() && Release(name).Ok?
      ensures Release(name).value.Valid()
    {
      hide NamesValid;
      FreeIsKnown(usedType[name]);
      Pushed(usedType[name], FreeOf(usedType[name]), usedType, zombies, name);
    }

    /** A name can be given back exactly when it is in use; unknown names and second releases are refused. */
    lemma ReleaseTakesBack(name: string)
      requires Valid()
      ensures Release(name).Ok? <==> name in Held()
      ensures Release(name) == KeyError <==> name !in usedType
      ensures Release(name).Ok? ==>
                var s := Release(name).value;
                s.Valid() && s.Held() == Held() - {name} && s.usedType == usedType && s.taken == taken && s.zombies == zombies
    {
      hide Temps.Valid, Temps.Held;
      HeldExactly(name);
      if Release(name).Ok? {
        ReleaseKeepsValid(name);
        var s := Release(name).value;
        forall x: string
          ensures x in s.Held() <==> x in Held() - {name}
        {
          HeldExactly(x);
          s.HeldExactly(x);
        }
      }
    }
  }

  // ----- Runs -----

  datatype Op = AllocateOp(ctype: CType, manageRef: bool, isStatic: bool, reusable: bool) | ReleaseOp(name: string)

  datatype Event = Got(name: string, kind: Kind, reusable: bool) | Gave(name: string) | Refused(name: string)

  function Initial(taken: set<string>): (s: Temps) {
    Temps(taken, 0, [], map[], map[], {})
  }

  /** A refused release raises an exception and changes nothing. */
  function Step(s: Temps, op: Op): (Temps, Event) {
    match op
    case AllocateOp(ctype, manageRef, isStatic, reusable) =>
      var kind := KindFor(ctype, manageRef);
      var (t, name) := s.Allocate(kind, isStatic, reusable);
      (t, Got(name, kind, reusable))
    case ReleaseOp(name) =>
      match s.Release(name)
      case Ok(t) => (t, Gave(name))
      case _ => (s, Refused(name))
  }

  function Run(s: Temps, ops: seq<Op>): (Temps, seq<Event>)
    decreases |ops|
  {
    if ops == [] then (s, [])
    else
      var (t, e) := Step(s, ops[0]);
      var (u, es) := Run(t, ops[1..]);
      (u, [e] + es)
  }

  /** The names in use according to the events alone. */
  function HeldAfter(held: set<string>, es: seq<Event>): set<string>
    decreases |es|
  {
    if es == [] then held
    else
      match es[0]
      case Got(name, _, _) => HeldAfter(held + {name}, es[1..])
      case Gave(name) => HeldAfter(held - {name}, es[1..])
      case Refused(_) => HeldAfter(held, es[1..])
  }

  /** What a caller may rely on: a name handed out is in nobody else's hands, is not one of `taken`, has kept its
      kind from its first use on (`kinds`), and was never handed out as one not to be reused (`once`); a release
      is accepted exactly for names in use. */
  predicate Proper(es: seq<Event>, taken: set<string>, held: set<string>, kinds: map<string, Kind>, once: set<string>) {
    if es == [] then true
    else
      match es[0]
      case Got(name, kind, reusable) =>
        && name !in held && name !in taken && name !in once
        && (name in kinds ==> kinds[name] == kind && reusable)
        && Proper(es[1..], taken, held + {name}, kinds[name := kind], if reusable then once else once + {name})
      case Gave(name) => name in held && Proper(es[1..], taken, held - {name}, kinds, once)
      case Refused(name) => name !in held && Proper(es[1..], taken, held, kinds, once)
  }

  lemma {:induction false} RunIsProper(s: Temps, ops: seq<Op>)
    requires s.Valid()
    ensures Proper(Run(s, ops).1, s.taken, s.Held(), s.usedType, s.zombies)
    ensures Run(s, ops).0.Valid() && Run(s, ops).0.Held() == HeldAfter(s.Held(), Run(s, ops).1)
    decreases |ops|
  {
    hide Temps.Valid, Temps.Held, Temps.Allocate, Temps.Release;
    if ops != [] {
      var (t, e) := Step(s, ops[0]);
      match ops[0] {
        case AllocateOp(ctype, manageRef, isStatic, reusable) =>
          s.AllocateGivesFree(KindFor(ctype, manageRef), isStatic, reusable);
        case ReleaseOp(name) =>
          s.ReleaseTakesBack(name);
      }
      RunIsProper(t, ops[1..]);
      var es := Run(s, ops).1;
      assert es[0] == e && es[1..] == Run(t, ops[1..]).1;
    }
  }

  /** Every run of a function's allocator: names are handled properly, and at the end the names in use are
      those handed out and not given back. */
  lemma AllRuns(taken: set<string>, ops: seq<Op>)
    ensures var (s, es) := Run(Initial(taken), ops);
            Proper(es, taken, {}, map[], {}) && s.Held() == HeldAfter({}, es) && s.Valid()
  {
    assert Initial(taken).Valid() && Initial(taken).Held() == {};
    RunIsProper(Initial(taken), ops);
  }

  // ----- What is handed out again -----

  predicate About(e: Event, name: string) {
    !e.Refused? && e.name == name
  }

  ghost predicate HandedOut(es: seq<Event>, name: string) {
    exists i :: 0 <= i < |es| && es[i].Got? && es[i].name == name
  }

  /** The name was handed out for this kind, and not as one never to be reused. */
  ghost predicate Reusable(es: seq<Event>, kind: Kind, name: string) {
    exists i :: 0 <= i < |es| && es[i] == Got(name, kind, true)
  }

  /** The name was given back by the j-th event and has not been heard of since. */
  ghost predicate GaveAt(es: seq<Event>, name: string, j: nat) {
    j < |es| && es[j] == Gave(name) && forall m :: j < m < |es| ==> !About(es[m], name)
  }

  ghost predicate Available(es: seq<Event>, kind: Kind, name: string, j: nat) {
    Reusable(es, kind, name) && GaveAt(es, name, j)
  }

  ghost predicate AnyAvailable(es: seq<Event>, kind: Kind) {
    exists name, j :: Available(es, kind, name, j)
  }

  /** A request that may be met by a name used before gets the one that was given back last, if there is one of its
      kind, and a new name otherwise; all other requests get new names. */
  ghost predicate Reuses(past: seq<Event>, e: Event) {
    e.Got? ==>
      if e.reusable && AnyAvailable(past, e.kind) then
        exists j :: Available(past, e.kind, e.name, j) &&
          forall name', j' :: Available(past, e.kind, name', j') ==> j' <= j
      else !HandedOut(past, e.name)
  }

  /** The allocator's state and what has happened so far. */
  ghost predicate Remembers(s: Temps, es: seq<Event>) {
    && (forall name :: name in s.usedType <==> HandedOut(es, name))
    && (forall name, kind :: Reusable(es, kind, name) <==>
          name in s.usedType && s.usedType[name] == kind && name !in s.zombies)
    && (forall name :: (exists j :: GaveAt(es, name, j)) <==> Free(s, name))
    && forall kind :: InOrder(s.FreeOf(kind).order, es)
  }

  ghost predicate Free(s: Temps, name: string) {
    name in s.usedType && name in s.FreeOf(s.usedType[name]).released
  }

  /** The names are in the order in which they were given back. */
  ghost predicate InOrder(order: seq<string>, es: seq<Event>) {
    forall a, b, i, j :: 0 <= a < b < |order| && GaveAt(es, order[a], i) && GaveAt(es, order[b], j) ==> i < j
  }

  lemma HandedOutMore(es: seq<Event>, e: Event, name: string)
    ensures HandedOut(es + [e], name) <==> HandedOut(es, name) || (e.Got? && e.name == name)
  {
    var more := es + [e];
    assert more[|es|] == e && forall i :: 0 <= i < |es| ==> more[i] == es[i];
  }

  lemma ReusableMore(es: seq<Event>, e: Event, kind: Kind, name: string)
    ensures Reusable(es + [e], kind, name) <==> Reusable(es, kind, name) || e == Got(name, kind, true)
  {
    var more := es + [e];
    assert more[|es|] == e && forall i :: 0 <= i < |es| ==> more[i] == es[i];
  }

  lemma GaveAtMore(es: seq<Event>, e: Event, name: string, j: nat)
    ensures !About(e, name) ==> (GaveAt(es + [e], name, j) <==> GaveAt(es, name, j))
    ensures About(e, name) ==> (GaveAt(es + [e], name, j) <==> e.Gave? && j == |es|)
  {
    var more := es + [e];
    assert more[|es|] == e && forall i :: 0 <= i < |es| ==> more[i] == es[i];
  }

  lemma GaveOnce(es: seq<Event>, name: string, i: nat, j: nat)
    requires GaveAt(es, name, i) && GaveAt(es, name, j)
    ensures i == j
  {
  }

  /** Names given back for this kind are in the free list, and no others. */
  lemma OrderIsAvailable(s: Temps, es: seq<Event>, kind: Kind, name: string)
    requires s.Valid() && Remembers(s, es)
    ensures name in s.FreeOf(kind).order <==> exists j :: Available(es, kind, name, j)
  {
    hide Reusable, GaveAt, NamesValid, InOrder;
    s.FreeIsKnown(kind);
    if name in s.FreeOf(kind).order {
      assert Free(s, name);
      var j :| GaveAt(es, name, j);
      assert Available(es, kind, name, j);
    }
    if j :| Available(es, kind, name, j) {
      assert Free(s, name);
    }
  }

  lemma FreeMore(s: Temps, t: Temps, es: seq<Event>, e: Event)
    requires forall name :: (exists j :: GaveAt(es, name, j)) <==> Free(s, name)
    requires forall name :: !About(e, name) ==> Free(t, name) == Free(s, name)
    requires forall name :: About(e, name) ==> (Free(t, name) <==> e.Gave?)
    ensures forall name :: (exists j :: GaveAt(es + [e], name, j)) <==> Free(t, name)
  {
    hide GaveAt, Free;
    forall name
      ensures (exists j :: GaveAt(es + [e], name, j)) <==> Free(t, name)
    {
      GaveAtMore(es, e, name, |es|);
      if j :| GaveAt(es, name, j) {
        GaveAtMore(es, e, name, j);
      }
      if j :| GaveAt(es + [e], name, j) {
        GaveAtMore(es, e, name, j);
      }
    }
  }

  lemma OrderMore(order: seq<string>, es: seq<Event>, e: Event)
    requires InOrder(order, es) && forall name <- order :: !About(e, name)
    ensures InOrder(order, es + [e])
    ensures e.Gave? ==> InOrder(order + [e.name], es + [e])
  {
    hide GaveAt;
    forall name, j: nat | name in order
      ensures GaveAt(es + [e], name, j) <==> GaveAt(es, name, j)
    {
      GaveAtMore(es, e, name, j);
    }
    if e.Gave? {
      forall j: nat
        ensures GaveAt(es + [e], e.name, j) <==> j == |es|
      {
        GaveAtMore(es, e, e.name, j);
      }
      forall name, j: nat | GaveAt(es, name, j)
        ensures j < |es|
      {
        GaveIndex(es, name, j);
      }
    }
  }

  lemma GaveIndex(es: seq<Event>, name: string, j: nat)
    requires GaveAt(es, name, j)
    ensures j < |es|
  {
  }

  /** The name on top of the free list is the one that was given back last. */
  lemma LastIsTop(s: Temps, es: seq<Event>, kind: Kind)
    requires s.Valid() && Remembers(s, es) && s.FreeOf(kind).order != []
    ensures AnyAvailable(es, kind)
    ensures var name := s.FreeOf(kind).order[|s.FreeOf(kind).order| - 1];
      exists j :: Available(es, kind, name, j) && forall name', j' :: Available(es, kind, name', j') ==> j' <= j
  {
    hide Temps.Valid, Reusable, GaveAt;
    var order := s.FreeOf(kind).order;
    var last := |order| - 1;
    OrderIsAvailable(s, es, kind, order[last]);
    var j :| Available(es, kind, order[last], j);
    forall name', j' | Available(es, kind, name', j')
      ensures j' <= j
    {
      OrderIsAvailable(s, es, kind, name');
      var a :| 0 <= a < |order| && order[a] == name';
      if a == last {
        GaveOnce(es, name', j, j');
      } else {
        assert InOrder(order, es);
      }
    }
  }

  lemma NothingAvailable(s: Temps, es: seq<Event>, kind: Kind)
    requires s.Valid() && Remembers(s, es)
    ensures s.FreeOf(kind).order == [] ==> !AnyAvailable(es, kind)
  {
    hide Temps.Valid, Remembers, Available;
    forall name, j | Available(es, kind, name, j)
      ensures s.FreeOf(kind).order != []
    {
      OrderIsAvailable(s, es, kind, name);
    }
  }

  lemma AllocateReuses(s: Temps, es: seq<Event>, kind: Kind, isStatic: bool, reusable: bool)
    requires s.Valid() && Remembers(s, es)
    ensures Reuses(es, Got(s.Allocate(kind, isStatic, reusable).1, kind, reusable))
  {
    hide Temps.Valid, GaveAt, Available, AnyAvailable, HandedOut, InOrder;
    if reusable && s.FreeOf(kind).order != [] {
      LastIsTop(s, es, kind);
    } else {
      s.NextFreeIsNew();
      NothingAvailable(s, es, kind);
    }
  }

  lemma AllocateRemembers(s: Temps, es: seq<Event>, kind: Kind, isStatic: bool, reusable: bool)
    requires s.Valid() && Remembers(s, es)
    ensures var (t, name) := s.Allocate(kind, isStatic, reusable);
      Remembers(t, es + [Got(name, kind, reusable)])
  {
    hide Temps.Valid, GaveAt, HandedOut, Reusable, InOrder, NextFree, TempName, NamesValid, ListsValid;
    var (t, name) := s.Allocate(kind, isStatic, reusable);
    var e := Got(name, kind, reusable);
    s.AllocateGivesFree(kind, isStatic, reusable);
    AllocatedFree(s, kind, isStatic, reusable);
    FreeMore(s, t, es, e);
    forall x
      ensures HandedOut(es + [e], x) <==> HandedOut(es, x) || x == name
    {
      HandedOutMore(es, e, x);
    }
    forall x, k
      ensures Reusable(es + [e], k, x) <==> Reusable(es, k, x) || e == Got(x, k, true)
    {
      ReusableMore(es, e, k, x);
    }
    forall k
      ensures InOrder(t.FreeOf(k).order, es + [e])
    {
      AllocatedOrder(s, es, kind, isStatic, reusable, k);
    }
  }

  /** Only the name handed out leaves the free lists. */
  lemma AllocatedFree(s: Temps, kind: Kind, isStatic: bool, reusable: bool)
    requires s.Valid()
    ensures var (t, name) := s.Allocate(kind, isStatic, reusable);
      !Free(t, name) && forall x :: x != name ==> Free(t, x) == Free(s, x)
  {
    hide NamesValid, ListsValid, NextFree, TempName, Temps.Valid;
    var (t, name) := s.Allocate(kind, isStatic, reusable);
    s.AllocateGivesFree(kind, isStatic, reusable);
    forall k, x
      ensures x in s.FreeOf(k).released ==> x in s.usedType && s.usedType[x] == k
      ensures x !in s.usedType ==> x !in s.FreeOf(k).released
    {
      Known(s, k, x);
    }
  }

  lemma Known(s: Temps, kind: Kind, name: string)
    requires s.Valid()
    ensures name in s.FreeOf(kind).released ==> name in s.usedType && s.usedType[name] == kind
  {
    hide NamesValid;
    s.FreeIsKnown(kind);
  }

  lemma AllocatedOrder(s: Temps, es: seq<Event>, kind: Kind, isStatic: bool, reusable: bool, k: Kind)
    requires s.Valid() && Remembers(s, es)
    ensures var (t, name) := s.Allocate(kind, isStatic, reusable);
      InOrder(t.FreeOf(k).order, es + [Got(name, kind, reusable)])
  {
    hide NamesValid, GaveAt, HandedOut, Reusable, NextFree, TempName;
    var (t, name) := s.Allocate(kind, isStatic, reusable);
    s.FreeIsKnown(k);
    s.NextFreeIsNew();
    if reusable && s.FreeOf(kind).order != [] {
      s.FreeIsKnown(kind);
    }
    assert InOrder(s.FreeOf(k).order, es);
    assert InOrder(t.FreeOf(k).order, es);
    forall x | x in t.FreeOf(k).order
      ensures x != name
    {
      assert x in s.FreeOf(k).order;
    }
    OrderMore(t.FreeOf(k).order, es, Got(name, kind, reusable));
  }

  lemma ReleaseRemembers(s: Temps, es: seq<Event>, name: string)
    requires s.Valid() && Remembers(s, es)
    ensures match s.Release(name)
            case Ok(t) => Remembers(t, es + [Gave(name)])
            case _ => Remembers(s, es + [Refused(name)])
  {
    hide GaveAt, HandedOut, Reusable, InOrder, NamesValid, ListsValid, Temps.Valid, Free;
    var (t, e) := Step(s, ReleaseOp(name));
    ReleasedFree(s, name);
    FreeMore(s, t, es, e);
    forall x
      ensures HandedOut(es + [e], x) <==> HandedOut(es, x)
    {
      HandedOutMore(es, e, x);
    }
    forall x, k
      ensures Reusable(es + [e], k, x) <==> Reusable(es, k, x)
    {
      ReusableMore(es, e, k, x);
    }
    forall k
      ensures InOrder(t.FreeOf(k).order, es + [e])
    {
      ReleasedOrder(s, es, name, k);
    }
  }

  lemma ReleasedFree(s: Temps, name: string)
    requires s.Valid()
    ensures var (t, e) := Step(s, ReleaseOp(name));
      && (e.Gave? ==> e.name == name && Free(t, name)) && !e.Got?
      && forall x :: (e.Gave? ==> x != name) ==> Free(t, x) == Free(s, x)
  {
    hide NamesValid, ListsValid, Temps.Valid;
    forall k, x
      ensures x in s.FreeOf(k).released ==> x in s.usedType && s.usedType[x] == k
    {
      Known(s, k, x);
    }
  }

  lemma ReleasedOrder(s: Temps, es: seq<Event>, name: string, k: Kind)
    requires s.Valid() && Remembers(s, es)
    ensures var (t, e) := Step(s, ReleaseOp(name)); InOrder(t.FreeOf(k).order, es + [e])
  {
    hide NamesValid, GaveAt, HandedOut, Reusable;
    var (t, e) := Step(s, ReleaseOp(name));
    s.FreeIsKnown(k);
    var order := s.FreeOf(k).order;
    assert InOrder(order, es);
    OrderMore(order, es, e);
  }

  lemma NothingRemembered(taken: set<string>)
    ensures Remembers(Initial(taken), []) && Initial(taken).Valid() && Initial(taken).Held() == {}
  {
  }

  lemma StepRemembers(s: Temps, past: seq<Event>, op: Op)
    requires s.Valid() && Remembers(s, past)
    ensures var (t, e) := Step(s, op); t.Valid() && Remembers(t, past + [e]) && Reuses(past, e)
  {
    hide Temps.Valid, Remembers, NamesValid, ListsValid, Reuses, NextFree;
    match op
    case AllocateOp(ctype, manageRef, isStatic, reusable) =>
      s.AllocateGivesFree(KindFor(ctype, manageRef), isStatic, reusable);
      AllocateReuses(s, past, KindFor(ctype, manageRef), isStatic, reusable);
      AllocateRemembers(s, past, KindFor(ctype, manageRef), isStatic, reusable);
    case ReleaseOp(name) =>
      s.ReleaseTakesBack(name);
      ReleaseRemembers(s, past, name);
      NoRequest(past, Step(s, op).1);
  }

  lemma NoRequest(past: seq<Event>, e: Event)
    requires !e.Got?
    ensures Reuses(past, e)
  {
  }

  /** Every request among the events is met as it should be after what was before. */
  ghost predicate AllReuse(past: seq<Event>, es: seq<Event>)
    decreases |es|
  {
    es == [] || (Reuses(past, es[0]) && AllReuse(past + [es[0]], es[1..]))
  }

  lemma {:induction false} RunReuses(s: Temps, past: seq<Event>, ops: seq<Op>)
    requires s.Valid() && Remembers(s, past)
    ensures AllReuse(past, Run(s, ops).1)
    decreases |ops|
  {
    hide Temps.Valid, Remembers, Reuses, Step;
    if ops != [] {
      var (t, e) := Step(s, ops[0]);
      StepRemembers(s, past, ops[0]);
      RunReuses(t, past + [e], ops[1..]);
      var es := Run(s, ops).1;
      assert es[0] == e && es[1..] == Run(t, ops[1..]).1;
    }
  }

  lemma {:induction false} ReuseAt(past: seq<Event>, es: seq<Event>, i: nat)
    requires AllReuse(past, es) && i < |es|
    ensures Reuses(past + es[..i], es[i])
    decreases |es|
  {
    hide Reuses;
    if i == 0 {
      assert past + es[..0] == past;
    } else {
      ReuseAt(past + [es[0]], es[1..], i - 1);
      assert past + [es[0]] + es[1..][..i - 1] == past + es[..i];
    }
  }

  /** In every run, a name that can be used again is used again, the one given back last first. */
  lemma AllRunsReuse(taken: set<string>, ops: seq<Op>)
    ensures var es := Run(Initial(taken), ops).1; forall i :: 0 <= i < |es| ==> Reuses(es[..i], es[i])
  {
    hide Remembers, Reuses, Temps.Valid, Run, AllReuse;
    NothingRemembered(taken);
    RunReuses(Initial(taken), [], ops);
    var es := Run(Initial(taken), ops).1;
    forall i | 0 <= i < |es|
      ensures Reuses(es[..i], es[i])
    {
      ReuseAt([], es, i);
      assert [] + es[..i] == es[..i];
    }
  }

  // ----- How many names there are -----

  /** The reusable names that were handed out for a kind. */
  function Introduced(es: seq<Event>, kind: Kind): set<string> {
    if es == [] then {}
    else
      var e := es[|es| - 1];
      Introduced(es[..|es| - 1], kind) + if e.Got? && e.reusable && e.kind == kind then {e.name} else {}
  }

  lemma {:induction false} IntroducedIs(es: seq<Event>, kind: Kind)
    ensures forall name :: name in Introduced(es, kind) <==> Reusable(es, kind, name)
  {
    if es != [] {
      var most, e := es[..|es| - 1], es[|es| - 1];
      IntroducedIs(most, kind);
      assert es == most + [e];
      forall name
        ensures Reusable(es, kind, name) <==> Reusable(most, kind, name) || e == Got(name, kind, true)
      {
        ReusableMore(most, e, kind, name);
      }
    }
  }

  lemma {:induction false} IntroducedGrows(es: seq<Event>, n: nat, kind: Kind)
    requires n <= |es|
    ensures Introduced(es[..n], kind) <= Introduced(es, kind)
  {
    if n < |es| {
      IntroducedGrows(es[..|es| - 1], n, kind);
      assert es[..|es| - 1][..n] == es[..n];
    } else {
      assert es[..n] == es;
    }
  }

  /** The reusable names of a kind that are in use. */
  function InUseAfter(es: seq<Event>, kind: Kind): set<string> {
    HeldAfter({}, es) * Introduced(es, kind)
  }

  lemma {:induction false} HeldMore(held: set<string>, es: seq<Event>, e: Event)
    ensures HeldAfter(held, es + [e]) ==
            match e
            case Got(name, _, _) => HeldAfter(held, es) + {name}
            case Gave(name) => HeldAfter(held, es) - {name}
            case Refused(_) => HeldAfter(held, es)
    decreases |es|
  {
    if es == [] {
      assert (es + [e])[1..] == [];
    } else {
      assert (es + [e])[1..] == es[1..] + [e];
      match es[0]
      case Got(name, _, _) => HeldMore(held + {name}, es[1..], e);
      case Gave(name) => HeldMore(held - {name}, es[1..], e);
      case Refused(_) => HeldMore(held, es[1..], e);
    }
  }

  /** At some point all of them were in use. */
  ghost predicate Peaked(es: seq<Event>, kind: Kind) {
    exists n :: 0 <= n <= |es| && |InUseAfter(es[..n], kind)| == |Introduced(es, kind)|
  }

  /** A new name is only introduced when all others are in use. */
  lemma PeakMore(s: Temps, past: seq<Event>, e: Event, kind: Kind)
    requires s.Valid() && Remembers(s, past) && s.Held() == HeldAfter({}, past) && Reuses(past, e) && Peaked(past, kind)
    ensures Peaked(past + [e], kind)
  {
    hide Temps.Valid, GaveAt, HandedOut, HeldAfter, Temps.Held, NamesValid;
    var more := past + [e];
    assert more[..|past|] == past && more[..|more|] == more;
    if e == Got(e.name, kind, true) && !AnyAvailable(past, kind) {
      AllInUse(s, past, kind);
      HeldMore({}, past, e);
      assert InUseAfter(more, kind) == Introduced(more, kind);
      assert |InUseAfter(more[..|more|], kind)| == |Introduced(more, kind)|;
    } else {
      NothingIntroduced(s, past, e, kind);
      var n :| 0 <= n <= |past| && |InUseAfter(past[..n], kind)| == |Introduced(past, kind)|;
      assert more[..n] == past[..n];
    }
  }

  lemma NothingIntroduced(s: Temps, past: seq<Event>, e: Event, kind: Kind)
    requires Reuses(past, e) && (e == Got(e.name, kind, true) ==> AnyAvailable(past, kind))
    ensures Introduced(past + [e], kind) == Introduced(past, kind)
  {
    hide GaveAt, HandedOut, Reusable;
    assert (past + [e])[..|past|] == past;
    IntroducedIs(past, kind);
  }

  lemma AllInUse(s: Temps, past: seq<Event>, kind: Kind)
    requires s.Valid() && Remembers(s, past) && s.Held() == HeldAfter({}, past) && !AnyAvailable(past, kind)
    ensures Introduced(past, kind) <= HeldAfter({}, past)
  {
    hide Temps.Valid, GaveAt, HandedOut, Reusable, HeldAfter, Temps.Held, NamesValid;
    IntroducedIs(past, kind);
    forall name | name in Introduced(past, kind)
      ensures name in s.Held()
    {
      StillInUse(s, past, kind, name);
    }
  }

  lemma StillInUse(s: Temps, past: seq<Event>, kind: Kind, name: string)
    requires s.Valid() && Remembers(s, past) && !AnyAvailable(past, kind) && Reusable(past, kind, name)
    ensures name in s.Held()
  {
    hide Temps.Valid, GaveAt, HandedOut, Reusable, Temps.Held, NamesValid, InOrder;
    s.HeldExactly(name);
    forall j
      ensures GaveAt(past, name, j) ==> AnyAvailable(past, kind)
    {
      AvailableNow(past, kind, name, j);
    }
    assert !Free(s, name);
  }

  lemma AvailableNow(past: seq<Event>, kind: Kind, name: string, j: nat)
    requires Reusable(past, kind, name)
    ensures GaveAt(past, name, j) ==> AnyAvailable(past, kind)
  {
    hide GaveAt, Reusable;
    assert GaveAt(past, name, j) ==> Available(past, kind, name, j);
  }

  lemma {:induction false} RunPeaks(s: Temps, past: seq<Event>, ops: seq<Op>, kind: Kind)
    requires s.Valid() && Remembers(s, past) && s.Held() == HeldAfter({}, past) && Peaked(past, kind)
    ensures Peaked(past + Run(s, ops).1, kind)
    decreases |ops|
  {
    hide Temps.Valid, Remembers, Reuses, Peaked, HeldAfter, Temps.Held, Step;
    if ops == [] {
      assert past + [] == past;
    } else {
      var (t, e) := Step(s, ops[0]);
      StepRemembers(s, past, ops[0]);
      StepHolds(s, past, ops[0]);
      PeakMore(s, past, e, kind);
      RunPeaks(t, past + [e], ops[1..], kind);
      assert past + Run(s, ops).1 == past + [e] + Run(t, ops[1..]).1;
    }
  }

  lemma StepHolds(s: Temps, past: seq<Event>, op: Op)
    requires s.Valid() && s.Held() == HeldAfter({}, past)
    ensures var (t, e) := Step(s, op); t.Held() == HeldAfter({}, past + [e])
  {
    hide Temps.Valid, Temps.Held, HeldAfter, Temps.Allocate, Temps.Release;
    HeldMore({}, past, Step(s, op).1);
    match op
    case AllocateOp(ctype, manageRef, isStatic, reusable) =>
      s.AllocateGivesFree(KindFor(ctype, manageRef), isStatic, reusable);
    case ReleaseOp(name) =>
      s.ReleaseTakesBack(name);
  }

  /** In every run there are as many reusable names of a kind as were in use at once, and never more are. */
  lemma NoMoreNamesThanNeeded(taken: set<string>, ops: seq<Op>, kind: Kind)
    ensures var es := Run(Initial(taken), ops).1;
      && (forall n :: 0 <= n <= |es| ==> |InUseAfter(es[..n], kind)| <= |Introduced(es, kind)|)
      && exists n :: 0 <= n <= |es| && |InUseAfter(es[..n], kind)| == |Introduced(es, kind)|
  {
    hide Remembers, Temps.Valid, Temps.Held, Run;
    NothingRemembered(taken);
    var s, es := Initial(taken), Run(Initial(taken), ops).1;
    var none: seq<Event> := [];
    assert none[..0] == none && InUseAfter(none, kind) == {} == Introduced(none, kind);
    assert Peaked(none, kind);
    RunPeaks(s, none, ops, kind);
    assert none + es == es;
    forall n | 0 <= n <= |es|
      ensures |InUseAfter(es[..n], kind)| <= |Introduced(es, kind)|
    {
      IntroducedGrows(es, n, kind);
      NoLarger(InUseAfter(es[..n], kind), Introduced(es, kind));
    }
  }

  lemma NoLarger(a: set<string>, b: set<string>)
    requires a <= b
    ensures |a| <= |b|
  {
    assert b == a + (b - a);
  }

  // ----- The class -----

  class FunctionState {
    const namesTaken: set<string>
    var tempsAllocated: seq<Temp>
    var tempsFree: map<Kind, FreeList>
    var tempsUsedType: map<string, Kind>
    var zombieTemps: set<string>
    var tempCounter: nat

    function State(): Temps
      reads this
    {
      Temps(namesTaken, tempCounter, tempsAllocated, tempsFree, tempsUsedType, zombieTemps)
    }

    constructor (namesTaken: set<string>)
      ensures State() == Initial(namesTaken)
    {
      this.namesTaken, tempsAllocated, tempsFree, tempsUsedType := namesTaken, [], map[], map[];
      zombieTemps, tempCounter := {}, 0;
    }

    method AllocateTemp(ctype: CType, manageRef: bool, isStatic: bool, reusable: bool) returns (name: string)
      modifies this
      ensures (State(), name) == old(State()).Allocate(KindFor(ctype, manageRef), isStatic, reusable)
    {
      hide NextFree, TempName, CType.Refcounted;
      var stored := ctype;
      if ctype.Qualified? {
        stored := ctype.base;
      } else if ctype.Reference? && !ctype.fake {
        stored := ctype.base;
      } else if ctype.Function? {
        stored := Pointer(ctype);
      }
      var managed := manageRef;
      if !stored.Refcounted() {
        managed := false;
      }
      var kind := Kind(stored, managed);
      assert kind == KindFor(ctype, manageRef);
      if reusable && kind in tempsFree && tempsFree[kind].order != [] {
        var f := tempsFree[kind];
        name := f.order[|f.order| - 1];
        tempsFree := tempsFree[kind := FreeList(f.order[..|f.order| - 1], f.released - {name})];
      } else {
        name := NewName();
        tempsAllocated := tempsAllocated + [Temp(name, kind, isStatic)];
        if !reusable {
          zombieTemps := zombieTemps + {name};
        }
      }
      tempsUsedType := tempsUsedType[name := kind];
    }

    /** Counts up until a name is found that the surrounding scope does not use. */
    method NewName() returns (name: string)
      modifies this`tempCounter
      ensures tempCounter == NextFree(namesTaken, old(tempCounter)) && name == TempName(tempCounter)
    {
      hide TempName;
      while true
        invariant NextFree(namesTaken, tempCounter) == NextFree(namesTaken, old(tempCounter))
        decreases |namesTaken - NamesUpTo(tempCounter)|
      {
        tempCounter := tempCounter + 1;
        name := TempName(tempCounter);
        if name !in namesTaken {
          break;
        }
        NextIsNew(namesTaken, tempCounter - 1);
      }
    }

    method ReleaseTemp(name: string) returns (r: Result<()>)
      modifies this
      ensures r == match old(State()).Release(name) case Ok(_) => Ok(()) case KeyError => KeyError case FreedTwice => FreedTwice
      ensures State() == match old(State()).Release(name) case Ok(s) => s case _ => old(State())
    {
      if name !in tempsUsedType {
        return KeyError;
      }
      var kind := tempsUsedType[name];
      var f := if kind in tempsFree then tempsFree[kind] else FreeList([], {});
      if name in f.released {
        return FreedTwice;
      }
      var order := f.order;
      if name !in zombieTemps {
        order := order + [name];
      }
      tempsFree := tempsFree[kind := FreeList(order, f.released + {name})];
      return Ok(());
    }

    /** The temporaries in use, in the order of their first allocation. */
    method TempsInUse() returns (used: seq<Temp>)
      ensures used == InUseOf(State(), tempsAllocated)
    {
      used := [];
      for i := 0 to |tempsAllocated|
        invariant used == InUseOf(State(), tempsAllocated[..i])
      {
        var t := tempsAllocated[i];
        assert tempsAllocated[..i + 1][..i] == tempsAllocated[..i];
        if t.kind !in tempsFree || t.name !in tempsFree[t.kind].released {
          used := used + [t];
        }
      }
      assert tempsAllocated[..|tempsAllocated|] == tempsAllocated;
    }

    /** Passes exactly when every temporary has been released. */
    method ValidateExit() returns (passes: bool)
      ensures passes <==> State().Held() == {}
    {
      var used := TempsInUse();
      InUseIsHeld(State(), tempsAllocated);
      passes := used == [];
      if passes {
        assert forall t <- tempsAllocated :: t !in used;
      } else {
        assert used[0] in used && used[0].name in State().Held();
      }
    }
  }

  function InUseOf(s: Temps, ts: seq<Temp>): seq<Temp> {
    if ts == [] then []
    else
      var t := ts[|ts| - 1];
      InUseOf(s, ts[..|ts| - 1]) + (if s.InUse(t) then [t] else [])
  }

  lemma {:induction false} InUseIsHeld(s: Temps, ts: seq<Temp>)
    ensures forall t :: t in InUseOf(s, ts) <==> t in ts && s.InUse(t)
  {
    if ts != [] {
      InUseIsHeld(s, ts[..|ts| - 1]);
      assert ts == ts[..|ts| - 1] + [ts[|ts| - 1]];
    }
  }
}
