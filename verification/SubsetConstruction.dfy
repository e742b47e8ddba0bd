/** The deterministic machines of Cython/Plex/Machines.py and `nfa_to_dfa` of Cython/Plex/DFA.py.

    `DeterministicAgrees` says that on every input the new machine is in the state that stands for exactly the nodes
    that the old one reaches, and so has their action of highest priority.  A character that is not mentioned goes
    the way of `else`. */
module SubsetConstruction {
  import opened TransitionMaps
  import opened Automata

  datatype Key = Character(code: nat) | Symbolic(symbol: Symbol) | Else

  datatype FastState = FastState(next: map<Key, Option<nat>>, action: Option<nat>)

  const TEMPLATE: map<Key, Option<nat>> :=
    map[Symbolic(Epsilon) := None, Symbolic(Bol) := None, Symbolic(Eol) := None, Symbolic(Eof) := None, Else := None]

  function KeyOf(x: Input): Key {
    match x
    case Code(c) => Character(c)
    case Mark(symbol) => Symbolic(symbol)
  }

  /** Where a state goes on; `None` when it is blocked. */
  function Follow(state: FastState, x: Input): Option<nat> {
    if KeyOf(x) in state.next then state.next[KeyOf(x)] else if Else in state.next then state.next[Else] else None
  }

  // ----- Writing the transitions of a state -----

  /** The keys that a transition on an event writes. */
  predicate Puts(e: Event, key: Key) {
    match e
    case Range(low, high) =>
      if low == -MAXINT then key == Else else high != MAXINT && key.Character? && low <= key.code < high
    case Special(symbol) => key == Symbolic(symbol)
  }

  /** The states of the table that a key should lead to. */
  function Expected(t: Table, key: Key): States
    requires t.Valid() && (key.Character? ==> key.code <= MAX_CODE)
  {
    match key
    case Character(c) => t.Get(Code(c))
    case Symbolic(symbol) => t.Get(Mark(symbol))
    case Else => t.sets[0]
  }

  /** `next'` is `next` with everything that the event puts leading to the target. */
  ghost predicate Written(next: map<Key, Option<nat>>, e: Event, target: nat, next': map<Key, Option<nat>>) {
    && (forall key :: key in next' <==> key in next || Puts(e, key))
    && forall key :: key in next' ==> next'[key] == if Puts(e, key) then Some(target) else next[key]
  }

  class FastMachine {
    var states: seq<FastState>
    var initialStates: map<string, nat>

    constructor ()
      ensures states == [] && initialStates == map[]
    {
      states, initialStates := [], map[];
    }

    method NewState(action: Option<nat>) returns (number: nat)
      modifies this`states
      ensures number == |old(states)| && states == old(states) + [FastState(TEMPLATE, action)]
    {
      number := |states|;
      states := states + [FastState(TEMPLATE, action)];
    }

    method MakeInitialState(name: string, state: nat)
      modifies this`initialStates
      ensures initialStates == old(initialStates)[name := state]
    {
      initialStates := initialStates[name := state];
    }

    method AddTransitions(state: nat, event: Event, target: nat)
      requires state < |states|
      requires event.Range? && event.low != -MAXINT && event.high != MAXINT ==> 0 <= event.low <= event.high
      modifies this`states
      ensures |states| == |old(states)| && states == old(states)[state := states[state]]
      ensures states[state].action == old(states)[state].action
      ensures Written(old(states)[state].next, event, target, states[state].next)
    {
      match event {
        case Range(code0, code1) =>
          if code0 == -MAXINT {
            states := states[state := states[state].(next := states[state].next[Else := Some(target)])];
          } else if code1 != MAXINT {
            ghost var before := states[state].next;
            for code := code0 to code1
              invariant |states| == |old(states)| && states == old(states)[state := states[state]]
              invariant states[state].action == old(states)[state].action
              invariant forall key :: key in states[state].next <==>
                          key in before || (key.Character? && code0 <= key.code < code)
              invariant forall key :: key in states[state].next ==>
                states[state].next[key] ==
                (if key.Character? && code0 <= key.code < code then Some(target) else before[key])
            {
              states := states[state := states[state].(next := states[state].next[Character(code) := Some(target)])];
            }
          }
        case Special(symbol) =>
          states := states[state := states[state].(next := states[state].next[Symbolic(symbol) := Some(target)])];
      }
    }

    /** The longest prefix after which the machine has an action, and that action: `run_machine`, for an input that
        ends where nothing can follow. */
    method Scan(start: nat, word: seq<Input>) returns (action: Option<nat>, length: nat)
      requires start < |states| && Linked(states)
      ensures length <= |word|
      ensures action.Some? ==> ActionAfter(states, start, word[..length]) == action
      ensures forall k :: (if action.Some? then length else -1) < k <= |word| ==>
                ActionAfter(states, start, word[..k]) == None
    {
      hide Linked, Run, Follow;
      RunNothing(states, start, word);
      var state, n := start, 0;
      action, length := None, 0;
      while true
        invariant length <= n <= |word| && state < |states| && Run(states, start, word[..n]) == Some(state)
        invariant action.Some? ==> ActionAfter(states, start, word[..length]) == action
        invariant forall k :: (if action.Some? then length else -1) < k < n ==>
                    ActionAfter(states, start, word[..k]) == None
        decreases |word| - n
      {
        if states[state].action != None {
          action, length := states[state].action, n;
        }
        if n == |word| {
          break;
        }
        var next := Follow(states[state], word[n]);
        RunOn(states, start, word, n);
        if next == None {
          BlockedForGood(states, start, word, n);
          break;
        }
        LinkedFollow(states, state, word[n]);
        state, n := next.value, n + 1;
      }
      assert word[..|word|] == word;
    }
  }

  // ----- Runs of a deterministic machine -----

  ghost predicate Linked(states: seq<FastState>) {
    forall d, x: Input :: 0 <= d < |states| ==> Follow(states[d], x).Some? ==> Follow(states[d], x).value < |states|
  }

  lemma LinkedFollow(states: seq<FastState>, d: nat, x: Input)
    requires Linked(states) && d < |states| && Follow(states[d], x).Some?
    ensures Follow(states[d], x).value < |states|
  {
  }

  function Run(states: seq<FastState>, start: nat, word: seq<Input>): Option<nat>
    decreases |word|
  {
    if word == [] then Some(start)
    else
      match Run(states, start, word[..|word| - 1])
      case None => None
      case Some(d) => if d < |states| then Follow(states[d], word[|word| - 1]) else None
  }

  function ActionAfter(states: seq<FastState>, start: nat, word: seq<Input>): Option<nat> {
    match Run(states, start, word)
    case None => None
    case Some(d) => if d < |states| then states[d].action else None
  }

  lemma RunMore(states: seq<FastState>, start: nat, word: seq<Input>, x: Input)
    ensures Run(states, start, word + [x]) ==
            match Run(states, start, word)
            case None => None
            case Some(d) => if d < |states| then Follow(states[d], x) else None
  {
    assert (word + [x])[..|word|] == word;
  }

  lemma {:induction false} BlockedStays(states: seq<FastState>, start: nat, word: seq<Input>, n: nat, k: nat)
    requires n <= k <= |word| && Run(states, start, word[..n]) == None
    ensures Run(states, start, word[..k]) == None
    decreases k
  {
    if n < k {
      BlockedStays(states, start, word, n, k - 1);
      RunOn(states, start, word, k - 1);
    }
  }

  lemma RunNothing(states: seq<FastState>, start: nat, word: seq<Input>)
    ensures Run(states, start, word[..0]) == Some(start)
  {
  }

  lemma RunOn(states: seq<FastState>, start: nat, word: seq<Input>, n: nat)
    requires n < |word|
    ensures Run(states, start, word[..n + 1]) ==
            match Run(states, start, word[..n])
            case None => None
            case Some(d) => if d < |states| then Follow(states[d], word[n]) else None
  {
    assert word[..n + 1] == word[..n] + [word[n]];
    RunMore(states, start, word[..n], word[n]);
  }

  lemma BlockedForGood(states: seq<FastState>, start: nat, word: seq<Input>, n: nat)
    requires n < |word| && Run(states, start, word[..n + 1]) == None
    ensures forall k :: n < k <= |word| ==> ActionAfter(states, start, word[..k]) == None
  {
    forall k | n < k <= |word|
      ensures ActionAfter(states, start, word[..k]) == None
    {
      BlockedStays(states, start, word, n + 1, k);
    }
  }

  // ----- From the items of a table to the transitions of a state -----

  /** The transitions on the items have been written, each to the state that stands for its nodes. */
  ghost predicate Connecting(t: Table, items: seq<Item>, next: map<Key, Option<nat>>, sets: seq<States>)
    requires t.Valid()
  {
    && TEMPLATE.Keys <= next.Keys
    && (forall key :: key in next && key.Character? ==> key.code <= MAX_CODE && next[key].Some?)
    && (forall key :: key in next && next[key].Some? ==> next[key].value < |sets| && sets[next[key].value] == Expected(t, key))
    && (forall item, key :: item in items && Puts(item.0, key) ==> key in next && next[key].Some?)
    && forall key :: key in next ==> key in TEMPLATE || PutBy(items, key)
  }

  ghost predicate PutBy(items: seq<Item>, key: Key) {
    exists item :: item in items && Puts(item.0, key)
  }

  lemma PutByMore(items: seq<Item>, item: Item, key: Key)
    ensures PutBy(items + [item], key) <==> PutBy(items, key) || Puts(item.0, key)
  {
    assert item in items + [item];
    assert forall i <- items :: i in items + [item];
    assert forall i <- items + [item] :: i in items || i == item;
  }

  lemma ConnectingNothing(t: Table, sets: seq<States>)
    requires t.Valid()
    ensures Connecting(t, [], TEMPLATE, sets)
  {
  }

  /** What an item puts leads to what is expected there. */
  lemma ItemExpected(t: Table, item: Item, key: Key)
    requires t.Valid() && CharacterCodes(t.codes) && item in ItemsOf(t) && Puts(item.0, key)
    ensures key.Character? ==> key.code <= MAX_CODE
    ensures item.1 == Expected(t, key)
  {
    hide ItemsOf;
    ItemIs(t, item);
    match item.0
    case Range(low, high) =>
      var i :| 0 <= i < |t.sets| && low == t.codes[i] && high == t.codes[i + 1] && item.1 == t.sets[i];
      Higher(t.codes, 0, i);
      Higher(t.codes, i + 1, |t.codes| - 1);
      if key.Character? {
        SlotIs(t.codes, key.code, i);
      }
    case Special(symbol) =>
  }

  lemma ConnectingMore(t: Table, items: seq<Item>, next: map<Key, Option<nat>>, sets: seq<States>, item: Item, target: nat,
                       next': map<Key, Option<nat>>)
    requires t.Valid() && CharacterCodes(t.codes) && Connecting(t, items, next, sets) && item in ItemsOf(t)
    requires target < |sets| && sets[target] == item.1 && Written(next, item.0, target, next')
    ensures Connecting(t, items + [item], next', sets)
  {
    hide ItemsOf, Expected;
    forall key | Puts(item.0, key)
      ensures (key.Character? ==> key.code <= MAX_CODE) && item.1 == Expected(t, key)
    {
      ItemExpected(t, item, key);
    }
    forall key
      ensures PutBy(items + [item], key) <==> PutBy(items, key) || Puts(item.0, key)
    {
      PutByMore(items, item, key);
    }
  }

  lemma ConnectingGrows(t: Table, items: seq<Item>, next: map<Key, Option<nat>>, sets: seq<States>, more: seq<States>)
    requires t.Valid() && Connecting(t, items, next, sets) && sets <= more
    ensures Connecting(t, items, next, more)
  {
    hide Expected;
  }

  ghost predicate Leads(t: Table, state: FastState, sets: seq<States>, x: Input)
    requires t.Valid()
  {
    match Follow(state, x)
    case None => t.Get(x) == {}
    case Some(e) => e < |sets| && sets[e] == t.Get(x)
  }

  /** The codes above all split points are those of no character, or lead where `else` leads. */
  predicate ElseCovers(t: Table)
    requires t.Valid()
  {
    t.SameEnds() || t.codes[|t.sets| - 1] > MAX_CODE
  }

  /** With all items written, a state goes on exactly to where the table leads. */
  lemma Connected(t: Table, state: FastState, sets: seq<States>, x: Input)
    requires t.Valid() && ElseCovers(t) && Connecting(t, ItemsOf(t), state.next, sets)
    ensures Leads(t, state, sets, x)
  {
    hide ItemsOf, ElseCovers;
    if KeyOf(x) in state.next {
      if x.Mark? && t.Get(x) != {} {
        var item := ItemListed(t, x);
        assert Puts(item.0, KeyOf(x));
      }
    } else {
      UnlistedCharacter(t, state, sets, x);
    }
  }

  lemma UnlistedCharacter(t: Table, state: FastState, sets: seq<States>, x: Input)
    requires t.Valid() && ElseCovers(t) && Connecting(t, ItemsOf(t), state.next, sets) && KeyOf(x) !in state.next
    ensures t.Get(x) == t.sets[0]
    ensures Else in state.next && (state.next[Else] == None ==> t.sets[0] == {})
  {
    hide ItemsOf, Slot, Expected, Increasing;
    InTemplate();
    var i := Slot(t.codes, x.code);
    if t.Get(x) != {} || t.sets[0] != {} {
      var item := ItemListed(t, x);
      assert !Puts(item.0, Character(x.code));
      FirstOrLast(t, i);
    }
    ElseListed(t, state, sets);
  }

  lemma ElseListed(t: Table, state: FastState, sets: seq<States>)
    requires t.Valid() && Connecting(t, ItemsOf(t), state.next, sets)
    ensures Else in state.next && (state.next[Else] == None ==> t.sets[0] == {})
  {
    hide ItemsOf, Slot, Expected, Increasing;
    InTemplate();
    if t.sets[0] != {} {
      var first := ItemListed(t, Code(-MAXINT));
      Higher(t.codes, 0, 1);
      SlotIs(t.codes, -MAXINT, 0);
      assert Puts(first.0, Else);
    }
  }

  /** It does so on every input if and only if `else` covers the codes above all split points. */
  lemma ConnectedExactly(t: Table, state: FastState, sets: seq<States>)
    requires t.Valid() && CharacterCodes(t.codes) && Connecting(t, ItemsOf(t), state.next, sets)
    ensures (forall x: Input :: Leads(t, state, sets, x)) <==> ElseCovers(t)
  {
    hide ItemsOf, Leads, Connecting;
    if ElseCovers(t) {
      forall x: Input
        ensures Leads(t, state, sets, x)
      {
        Connected(t, state, sets, x);
      }
    } else {
      var last := |t.sets| - 1;
      Higher(t.codes, last, last + 1);
      var x: Input := Code(t.codes[last]);
      LastUnlisted(t, state, sets, x);
    }
  }

  lemma LastUnlisted(t: Table, state: FastState, sets: seq<States>, x: Input)
    requires t.Valid() && !ElseCovers(t) && CharacterCodes(t.codes) && Connecting(t, ItemsOf(t), state.next, sets)
    requires x == Code(t.codes[|t.sets| - 1])
    ensures !Leads(t, state, sets, x)
  {
    hide ItemsOf, Slot, Increasing;
    var last := |t.sets| - 1;
    Higher(t.codes, last, last + 1);
    SlotIs(t.codes, x.code, last);
    forall item | item in ItemsOf(t)
      ensures !Puts(item.0, KeyOf(x))
    {
      LastNotPut(t, item);
    }
    ElseListed(t, state, sets);
  }

  /** No item puts the codes above all split points. */
  lemma LastNotPut(t: Table, item: Item)
    requires t.Valid() && item in ItemsOf(t) && 0 <= t.codes[|t.sets| - 1]
    ensures !Puts(item.0, Character(t.codes[|t.sets| - 1]))
  {
    hide ItemsOf;
    ItemIs(t, item);
    if item.0.Range? {
      var i :| 0 <= i < |t.sets| && item.0.low == t.codes[i] && item.0.high == t.codes[i + 1] && item.1 == t.sets[i];
      Higher(t.codes, i + 1, |t.sets| - 1);
    }
  }

  lemma InTemplate()
    ensures Else in TEMPLATE && forall symbol :: Symbolic(symbol) in TEMPLATE
  {
    forall symbol
      ensures Symbolic(symbol) in TEMPLATE
    {
      assert symbol == Epsilon || symbol == Bol || symbol == Eol || symbol == Eof;
    }
  }

  lemma FirstOrLast(t: Table, i: nat)
    requires t.Valid() && i < |t.sets|
    ensures t.codes[i] == -MAXINT ==> i == 0
    ensures t.codes[i + 1] == MAXINT ==> i == |t.sets| - 1
  {
    Higher(t.codes, 0, i);
    Higher(t.codes, i + 1, |t.sets|);
  }

  // ----- How many states there can be -----

  function With(states: States, s: nat): States {
    states + {s}
  }

  function Subsets(n: nat): set<States> {
    if n == 0 then {{}}
    else
      var less := Subsets(n - 1);
      less + set s | s in less :: With(s, n - 1)
  }

  lemma {:induction false} SubsetListed(n: nat, states: States)
    requires states <= All(n)
    ensures states in Subsets(n)
    decreases n
  {
    if n > 0 {
      var less := states - {n - 1};
      SubsetListed(n - 1, less);
      assert states == less || states == With(less, n - 1);
    } else {
      assert states == {};
    }
  }

  lemma {:induction false} DistinctCount(sets: seq<States>, all: set<States>)
    requires forall i :: 0 <= i < |sets| ==> sets[i] in all
    requires forall i, j :: 0 <= i < j < |sets| ==> sets[i] != sets[j]
    ensures |sets| <= |all|
    decreases |sets|
  {
    if sets != [] {
      var last := |sets| - 1;
      DistinctCount(sets[..last], all - {sets[last]});
    }
  }

  // ----- Sets of nodes and new states -----

  ghost predicate Mapped(nodes: seq<Node>, states: seq<FastState>, oldToNew: map<States, nat>, newToOld: seq<States>) {
    && |newToOld| == |states|
    && (forall d :: 0 <= d < |newToOld| ==>
          newToOld[d] <= All(|nodes|) && newToOld[d] in oldToNew && oldToNew[newToOld[d]] == d)
    && (forall d :: 0 <= d < |newToOld| ==> IsBest(nodes, newToOld[d], states[d].action))
    && forall key :: key in oldToNew ==> oldToNew[key] < |newToOld| && newToOld[oldToNew[key]] == key
  }

  /** New states are numbered in the order in which they are made. */
  class StateMap {
    const nodes: seq<Node>
    const newMachine: FastMachine
    var oldToNewDict: map<States, nat>
    var newToOldDict: seq<States>

    constructor (nodes: seq<Node>, newMachine: FastMachine)
      requires ValidNodes(nodes) && newMachine.states == []
      ensures this.nodes == nodes && this.newMachine == newMachine && newToOldDict == [] && Valid()
    {
      this.nodes, this.newMachine, oldToNewDict, newToOldDict := nodes, newMachine, map[], [];
    }

    ghost predicate Valid()
      reads this, newMachine
    {
      && ValidNodes(nodes) && |newToOldDict| == |newMachine.states|
      && Mapped(nodes, newMachine.states, oldToNewDict, newToOldDict)
    }

    method OldToNew(oldStates: States) returns (number: nat)
      requires Valid() && oldStates <= All(|nodes|)
      modifies this, newMachine`states
      ensures Valid() && number < |newToOldDict| && newToOldDict[number] == oldStates
      ensures old(newToOldDict) <= newToOldDict && old(newMachine.states) <= newMachine.states
      ensures forall d :: |old(newMachine.states)| <= d < |newMachine.states| ==> newMachine.states[d].next == TEMPLATE
    {
      if oldStates in oldToNewDict {
        return oldToNewDict[oldStates];
      }
      var action := HighestPriorityAction(oldStates);
      number := newMachine.NewState(action);
      oldToNewDict, newToOldDict := oldToNewDict[oldStates := number], newToOldDict + [oldStates];
    }

    method HighestPriorityAction(states: States) returns (best: Option<nat>)
      requires ValidNodes(nodes) && states <= All(|nodes|)
      ensures IsBest(nodes, states, best)
    {
      hide Table.Valid, Table.Get;
      best := None;
      var bestPriority := LOWEST_PRIORITY;
      ghost var at := 0;
      var todo := states;
      while todo != {}
        invariant todo <= states
        invariant forall s <- states - todo :: s < |nodes| && nodes[s].priority <= bestPriority
        invariant if best == None then bestPriority == LOWEST_PRIORITY
                  else at in states && at < |nodes| && nodes[at].action == best && nodes[at].priority == bestPriority
        decreases |todo|
      {
        var s :| s in todo;
        var priority := nodes[s].priority;
        if priority > bestPriority {
          best, bestPriority := nodes[s].action, priority;
          at := s;
        }
        todo := todo - {s};
      }
      NoBest(nodes, states, bestPriority);
    }
  }

  lemma NoBest(nodes: seq<Node>, states: States, priority: int)
    requires ValidNodes(nodes) && forall s <- states :: s < |nodes| && nodes[s].priority <= priority
    ensures priority == LOWEST_PRIORITY ==> IsBest(nodes, states, None)
  {
    forall s | s in states
      ensures ValidNode(|nodes|, nodes[s])
    {
    }
  }

  // ----- The union of the transitions of some nodes -----

  /** What the items contribute at a point. */
  ghost function Contributed(nodes: seq<Node>, items: seq<Item>, p: Point): States
    requires ValidNodes(nodes)
  {
    if items == [] then {}
    else
      var item := items[|items| - 1];
      Contributed(nodes, items[..|items| - 1], p) + if Covers(item.0, p) then Closure(nodes, item.1) else {}
  }

  lemma {:induction false} ContributedIs(nodes: seq<Node>, items: seq<Item>, p: Point, states: States)
    requires ValidNodes(nodes) && forall item <- items :: Covers(item.0, p) ==> item.1 == states
    ensures Contributed(nodes, items, p) == if exists item :: item in items && Covers(item.0, p) then Closure(nodes, states) else {}
    decreases |items|
  {
    hide Closure, Covers;
    if items != [] {
      var most, last := items[..|items| - 1], items[|items| - 1];
      ContributedIs(nodes, most, p, states);
      assert forall item :: item in items <==> item in most || item == last by {
        assert items == most + [last];
      }
    }
  }

  /** The items of a node contribute the closure of its moves. */
  lemma NodeContributes(nodes: seq<Node>, s: nat, p: Point)
    requires ValidNodes(nodes) && s < |nodes| && IsPoint(p)
    ensures var t := nodes[s].moves; t.Valid() && Contributed(nodes, ItemsOf(t), p) == Closure(nodes, t.Get(p))
  {
    hide Closure, Contributed, ItemsOf, Table.Get, Table.Valid;
    var t := nodes[s].moves;
    assert ValidNode(|nodes|, nodes[s]);
    forall item | item in ItemsOf(t) && Covers(item.0, p)
      ensures item.1 == t.Get(p)
    {
      ItemGives(t, item, p);
    }
    ContributedIs(nodes, ItemsOf(t), p, t.Get(p));
    if t.Get(p) == {} {
      NothingReached(nodes);
    } else {
      var item := ItemListed(t, p);
    }
  }

  lemma StepUnion(nodes: seq<Node>, states: States, s: nat, p: Point)
    requires ValidNodes(nodes) && s < |nodes| && IsPoint(p)
    ensures Step(nodes, states + {s}, p) == Step(nodes, states, p) + Closure(nodes, nodes[s].moves.Get(p))
  {
    hide Reaches, Table.Get, Table.Valid;
    forall t: nat | t < |nodes|
      ensures StepsTo(nodes, states + {s}, p, t) <==>
              StepsTo(nodes, states, p, t) || ReachedFrom(nodes, nodes[s].moves.Get(p), t)
    {
    }
  }

  lemma StepNothing(nodes: seq<Node>, p: Point)
    requires ValidNodes(nodes) && IsPoint(p)
    ensures Step(nodes, {}, p) == {}
  {
  }

  /** The codes below and above all split points lead to the same nodes. */
  lemma StepEnds(nodes: seq<Node>, states: States)
    requires ValidNodes(nodes)
    ensures Step(nodes, states, Code(-MAXINT)) == Step(nodes, states, Code(MAXINT - 1))
  {
    hide Reaches;
    forall m: nat | m < |nodes|
      ensures nodes[m].moves.Get(Code(-MAXINT)) == nodes[m].moves.Get(Code(MAXINT - 1))
    {
      assert ValidNode(|nodes|, nodes[m]);
      EndsGet(nodes[m].moves);
    }
  }

  /** The table holds what the nodes reach by one move, for every point but epsilon. */
  ghost predicate Gathered(nodes: seq<Node>, states: States, t: Table)
    requires ValidNodes(nodes)
  {
    && t.Valid() && CharacterCodes(t.codes) && t.Get(Mark(Epsilon)) == {}
    && forall p :: IsPoint(p) && p != Mark(Epsilon) ==> t.Get(p) == Step(nodes, states, p)
  }

  /** The same with some items of one more node. */
  ghost predicate Gathering(nodes: seq<Node>, states: States, items: seq<Item>, t: Table)
    requires ValidNodes(nodes)
  {
    && t.Valid() && CharacterCodes(t.codes) && t.Get(Mark(Epsilon)) == {}
    && forall p :: IsPoint(p) && p != Mark(Epsilon) ==> t.Get(p) == Step(nodes, states, p) + Contributed(nodes, items, p)
  }

  lemma GatheredNode(nodes: seq<Node>, states: States, s: nat, t: Table)
    requires ValidNodes(nodes) && s < |nodes| && nodes[s].moves.Valid()
    requires Gathering(nodes, states, ItemsOf(nodes[s].moves), t)
    ensures Gathered(nodes, states + {s}, t)
  {
    hide Step, Contributed, Closure, Table.Get, Table.Valid, ItemsOf;
    forall p | IsPoint(p) && p != Mark(Epsilon)
      ensures t.Get(p) == Step(nodes, states + {s}, p)
    {
      NodeContributes(nodes, s, p);
      StepUnion(nodes, states, s, p);
    }
  }

  lemma ContributedMore(nodes: seq<Node>, items: seq<Item>, item: Item, p: Point)
    requires ValidNodes(nodes)
    ensures Contributed(nodes, items + [item], p) ==
            Contributed(nodes, items, p) + if Covers(item.0, p) then Closure(nodes, item.1) else {}
  {
    assert (items + [item])[..|items|] == items;
  }

  lemma GatheringMore(nodes: seq<Node>, states: States, items: seq<Item>, item: Item, t: Table, u: Table)
    requires ValidNodes(nodes) && Gathering(nodes, states, items, t) && u.Valid() && CharacterCodes(u.codes)
    requires item.0 != Special(Epsilon)
    requires forall p :: IsPoint(p) ==>
               u.Get(p) == t.Get(p) + if Covers(item.0, p) then Closure(nodes, item.1) else {}
    ensures Gathering(nodes, states, items + [item], u)
  {
    hide Step, Contributed, Closure, Table.Get, Table.Valid;
    forall p | IsPoint(p) && p != Mark(Epsilon)
      ensures u.Get(p) == Step(nodes, states, p) + Contributed(nodes, items + [item], p)
    {
      ContributedMore(nodes, items, item, p);
    }
  }

  /** Items that are skipped contribute nothing. */
  lemma GatheringSkips(nodes: seq<Node>, states: States, items: seq<Item>, item: Item, t: Table)
    requires ValidNodes(nodes) && Gathering(nodes, states, items, t) && (item.0 == Special(Epsilon) || item.1 == {})
    ensures Gathering(nodes, states, items + [item], t)
  {
    hide Step, Contributed, Closure, Table.Get, Table.Valid;
    NothingReached(nodes);
    forall p | IsPoint(p) && p != Mark(Epsilon)
      ensures t.Get(p) == Step(nodes, states, p) + Contributed(nodes, items + [item], p)
    {
      ContributedMore(nodes, items, item, p);
    }
  }

  lemma GatheringStart(nodes: seq<Node>, states: States, t: Table)
    requires ValidNodes(nodes) && Gathered(nodes, states, t)
    ensures Gathering(nodes, states, [], t)
  {
    hide Step, Closure, Table.Get, Table.Valid;
  }

  lemma GatheredNothing(nodes: seq<Node>)
    requires ValidNodes(nodes)
    ensures Gathered(nodes, {}, Table([-MAXINT, MAXINT], [{}], map[]))
  {
    hide Step;
    forall p | IsPoint(p)
      ensures Step(nodes, {}, p) == {}
    {
      StepNothing(nodes, p);
    }
  }

  method AddNode(m: Machine, ghost done: States, s: nat, transitions: TransitionMap)
    requires m.Valid() && s < |m.nodes| && Gathered(m.nodes, done, transitions.Now())
    modifies m`closures, transitions
    ensures m.Valid() && Gathered(m.nodes, done + {s}, transitions.Now())
  {
    hide Gathering, Gathered, Closure, ItemsOf, Table.Get;
    ghost var nodes := m.nodes;
    assert ValidNode(|nodes|, nodes[s]);
    var items := ItemsOf(m.nodes[s].moves);
    GatheringStart(nodes, done, transitions.Now());
    for k := 0 to |items|
      invariant m.Valid() && Gathering(nodes, done, items[..k], transitions.Now())
    {
      AddItem(m, done, items[..k], s, items[k], transitions);
      assert items[..k + 1] == items[..k] + [items[k]];
    }
    assert items[..|items|] == items;
    GatheredNode(nodes, done, s, transitions.Now());
  }

  method AddItem(m: Machine, ghost done: States, ghost before: seq<Item>, s: nat, item: Item, transitions: TransitionMap)
    requires m.Valid() && s < |m.nodes| && m.nodes[s].moves.Valid() && item in ItemsOf(m.nodes[s].moves)
    requires Gathering(m.nodes, done, before, transitions.Now())
    modifies m`closures, transitions
    ensures m.Valid() && Gathering(m.nodes, done, before + [item], transitions.Now())
  {
    hide Gathered, Closure, Step, Contributed, ItemsOf, Table.Get;
    ghost var t := transitions.Now();
    NodeItem(m.nodes, s, item);
    if item.0 != Special(Epsilon) && item.1 != {} {
      var targets := m.SetEpsilonClosure(item.1);
      ghost var codes := transitions.codes;
      transitions.AddSet(item.0, targets);
      CodesStay(codes, transitions.codes, item.0);
      GatheringMore(m.nodes, done, before, item, t, transitions.Now());
    } else {
      GatheringSkips(m.nodes, done, before, item, t);
    }
  }

  /** What the items of a node look like. */
  lemma NodeItem(nodes: seq<Node>, s: nat, item: Item)
    requires ValidNodes(nodes) && s < |nodes| && nodes[s].moves.Valid() && item in ItemsOf(nodes[s].moves)
    ensures item.1 <= All(|nodes|)
    ensures item.0.Range? ==>
              && -MAXINT <= item.0.low < item.0.high <= MAXINT
              && (item.0.low == -MAXINT || 0 <= item.0.low <= MAX_CODE + 1)
              && (item.0.high == MAXINT || 0 <= item.0.high <= MAX_CODE + 1)
  {
    hide ItemsOf, Slot;
    var t := nodes[s].moves;
    assert ValidNode(|nodes|, nodes[s]);
    ItemIs(t, item);
    match item.0
    case Range(low, high) =>
      var i :| 0 <= i < |t.sets| && low == t.codes[i] && high == t.codes[i + 1] && item.1 == t.sets[i];
      Higher(t.codes, i, i + 1);
      Higher(t.codes, 0, i);
      Higher(t.codes, i + 1, |t.sets|);
      ItemGives(t, item, Code(low));
    case Special(symbol) =>
      assert IsPoint(Mark(symbol));
  }

  /** New split points are those of the event. */
  lemma CodesStay(before: seq<int>, codes: seq<int>, event: Event)
    requires CharacterCodes(before) && Increasing(codes) && |before| >= 2 && |codes| >= 2
    requires before[0] == codes[0] == -MAXINT && before[|before| - 1] == codes[|codes| - 1] == MAXINT
    requires forall c :: c in codes ==> c in before || (event.Range? && (c == event.low || c == event.high))
    requires event.Range? ==> (event.low == -MAXINT || 0 <= event.low <= MAX_CODE + 1)
    requires event.Range? ==> (event.high == MAXINT || 0 <= event.high <= MAX_CODE + 1)
    ensures CharacterCodes(codes)
  {
    forall i | 0 < i < |codes| - 1
      ensures 0 <= codes[i] <= MAX_CODE + 1
    {
      Higher(codes, 0, i);
      Higher(codes, i, |codes| - 1);
      assert codes[i] in codes;
      if codes[i] in before {
        var j :| 0 <= j < |before| && before[j] == codes[i];
      }
    }
  }

  method Gather(m: Machine, states: States) returns (transitions: TransitionMap)
    requires m.Valid() && states <= All(|m.nodes|)
    modifies m`closures
    ensures m.Valid() && fresh(transitions) && Gathered(m.nodes, states, transitions.Now())
  {
    hide Gathered;
    transitions := new TransitionMap();
    GatheredNothing(m.nodes);
    var todo := states;
    assert states - todo == {};
    while todo != {}
      invariant todo <= states && m.Valid() && Gathered(m.nodes, states - todo, transitions.Now())
      decreases |todo|
    {
      var s :| s in todo;
      AddNode(m, states - todo, s, transitions);
      assert states - (todo - {s}) == states - todo + {s};
      todo := todo - {s};
    }
    assert states - todo == states;
  }

  // ----- The conversion -----

  /** On `x`, a state that stands for some nodes goes on to one that stands for what these reach, and is blocked only
      if they reach nothing. */
  ghost predicate GoesOn(nodes: seq<Node>, state: FastState, sets: seq<States>, states: States, x: Input)
    requires ValidNodes(nodes)
  {
    match Follow(state, x)
    case None => Step(nodes, states, x) == {}
    case Some(e) => e < |sets| && sets[e] == Step(nodes, states, x)
  }

  ghost predicate Finished(nodes: seq<Node>, state: FastState, sets: seq<States>, states: States)
    requires ValidNodes(nodes)
  {
    forall x: Input :: GoesOn(nodes, state, sets, states, x)
  }

  lemma FinishedGrows(nodes: seq<Node>, state: FastState, sets: seq<States>, states: States, more: seq<States>)
    requires ValidNodes(nodes) && Finished(nodes, state, sets, states) && sets <= more
    ensures Finished(nodes, state, more, states)
  {
    hide Step, Follow;
    forall x: Input
      ensures GoesOn(nodes, state, more, states, x)
    {
      assert GoesOn(nodes, state, sets, states, x);
    }
  }

  lemma StateFinished(nodes: seq<Node>, states: States, t: Table, state: FastState, sets: seq<States>)
    requires ValidNodes(nodes) && Gathered(nodes, states, t) && Connecting(t, ItemsOf(t), state.next, sets)
    ensures Finished(nodes, state, sets, states)
  {
    hide Step, Follow, ItemsOf, Connecting;
    StepEnds(nodes, states);
    EndsGet(t);
    assert ElseCovers(t);
    forall x: Input
      ensures GoesOn(nodes, state, sets, states, x)
    {
      Connected(t, state, sets, x);
    }
  }

  /** Every state stands for a set of nodes, has its best action and goes on as the nodes do. */
  ghost predicate Determinizes(nodes: seq<Node>, states: seq<FastState>, sets: seq<States>)
    requires ValidNodes(nodes)
  {
    && |states| == |sets|
    && forall d :: 0 <= d < |states| ==>
         IsBest(nodes, sets[d], states[d].action) && Finished(nodes, states[d], sets, sets[d])
  }

  /** The states to which the items of a table lead are sets of nodes. */
  lemma GatheredItem(nodes: seq<Node>, states: States, t: Table, item: Item)
    requires ValidNodes(nodes) && Gathered(nodes, states, t) && item in ItemsOf(t)
    ensures item.1 <= All(|nodes|)
    ensures item.0.Range? ==> -MAXINT <= item.0.low < item.0.high <= MAXINT
    ensures item.0.Range? && item.0.low != -MAXINT ==> 0 <= item.0.low
  {
    hide ItemsOf, Slot, Reaches;
    ItemIs(t, item);
    match item.0
    case Range(low, high) =>
      var i :| 0 <= i < |t.sets| && low == t.codes[i] && high == t.codes[i + 1] && item.1 == t.sets[i];
      Higher(t.codes, i, i + 1);
      Higher(t.codes, 0, i);
      Higher(t.codes, i + 1, |t.sets|);
      ItemGives(t, item, Code(low));
    case Special(symbol) =>
      assert IsPoint(Mark(symbol));
  }

  /** Writes the transitions of one state; other states only gain company. */
  method Connect(states: StateMap, ghost nodes: States, d: nat, transitions: TransitionMap)
    requires states.Valid() && d < |states.newMachine.states| && states.newMachine.states[d].next == TEMPLATE
    requires Gathered(states.nodes, nodes, transitions.Now())
    modifies states, states.newMachine`states
    ensures states.Valid() && old(states.newToOldDict) <= states.newToOldDict
    ensures |states.newMachine.states| >= |old(states.newMachine.states)|
    ensures Finished(states.nodes, states.newMachine.states[d], states.newToOldDict, nodes)
    ensures forall e :: 0 <= e < |states.newMachine.states| && e != d ==>
              if e < |old(states.newMachine.states)| then states.newMachine.states[e] == old(states.newMachine.states)[e]
              else states.newMachine.states[e].next == TEMPLATE
  {
    hide Gathered, Connecting, Finished, ItemsOf, Mapped, TEMPLATE;
    ghost var t := transitions.Now();
    GatheredValid(states.nodes, nodes, t);
    var items := transitions.Items();
    ConnectingNothing(t, states.newToOldDict);
    for k := 0 to |items|
      invariant states.Valid() && old(states.newToOldDict) <= states.newToOldDict
      invariant |states.newMachine.states| >= |old(states.newMachine.states)|
      invariant Connecting(t, items[..k], states.newMachine.states[d].next, states.newToOldDict)
      invariant forall e :: 0 <= e < |states.newMachine.states| && e != d ==>
                  if e < |old(states.newMachine.states)| then states.newMachine.states[e] == old(states.newMachine.states)[e]
                  else states.newMachine.states[e].next == TEMPLATE
    {
      GatheredItem(states.nodes, nodes, t, items[k]);
      ghost var before, sets := states.newMachine.states[d].next, states.newToOldDict;
      var target := states.OldToNew(items[k].1);
      assert states.newMachine.states[d].next == before;
      ConnectingGrows(t, items[..k], before, sets, states.newToOldDict);
      ghost var was := states.newMachine.states;
      states.newMachine.AddTransitions(d, items[k].0, target);
      MappedStays(states, was, d);
      ConnectingMore(t, items[..k], before, states.newToOldDict, items[k], target, states.newMachine.states[d].next);
      assert items[..k + 1] == items[..k] + [items[k]];
    }
    assert items[..|items|] == items;
    StateFinished(states.nodes, nodes, t, states.newMachine.states[d], states.newToOldDict);
  }

  lemma GatheredValid(nodes: seq<Node>, states: States, t: Table)
    requires ValidNodes(nodes) && Gathered(nodes, states, t)
    ensures t.Valid() && CharacterCodes(t.codes)
  {
  }

  /** Transitions do not matter to the map. */
  lemma MappedStays(states: StateMap, was: seq<FastState>, d: nat)
    requires ValidNodes(states.nodes) && d < |was| && Mapped(states.nodes, was, states.oldToNewDict, states.newToOldDict)
    requires |states.newMachine.states| == |was| && states.newMachine.states == was[d := states.newMachine.states[d]]
    requires states.newMachine.states[d].action == was[d].action
    ensures states.Valid()
  {
    hide IsBest;
    forall e | 0 <= e < |was|
      ensures states.newMachine.states[e].action == was[e].action
    {
    }
  }

  lemma MappedCount(nodes: seq<Node>, states: seq<FastState>, oldToNew: map<States, nat>, newToOld: seq<States>)
    requires Mapped(nodes, states, oldToNew, newToOld)
    ensures |states| <= |Subsets(|nodes|)|
  {
    hide IsBest;
    forall i | 0 <= i < |newToOld|
      ensures newToOld[i] in Subsets(|nodes|)
    {
      SubsetListed(|nodes|, newToOld[i]);
    }
    DistinctCount(newToOld, Subsets(|nodes|));
  }

  /** Initial states stand for what is reached from the initial nodes without input. */
  ghost predicate Starts(nodes: seq<Node>, first: map<string, nat>, initial: map<string, nat>, sets: seq<States>)
    requires ValidNodes(nodes)
  {
    forall name :: name in initial ==>
      name in first && initial[name] < |sets| && sets[initial[name]] == Closure(nodes, {first[name]})
  }

  lemma StartsGrow(nodes: seq<Node>, first: map<string, nat>, initial: map<string, nat>, sets: seq<States>, more: seq<States>)
    requires ValidNodes(nodes) && Starts(nodes, first, initial, sets) && sets <= more
    ensures Starts(nodes, first, initial, more)
  {
    hide Closure;
  }

  lemma ClosureNodes(nodes: seq<Node>, states: States)
    requires ValidNodes(nodes)
    ensures Closure(nodes, states) <= All(|nodes|)
  {
  }

  method AddInitialStates(m: Machine, machine: FastMachine, states: StateMap)
    requires m.Valid() && states.Valid() && states.nodes == m.nodes && states.newMachine == machine
    requires machine.states == [] && machine.initialStates == map[]
    modifies m`closures, states, machine
    ensures m.Valid() && states.Valid() && machine.initialStates.Keys == m.initialStates.Keys
    ensures Starts(m.nodes, m.initialStates, machine.initialStates, states.newToOldDict)
    ensures forall d :: 0 <= d < |machine.states| ==> machine.states[d].next == TEMPLATE
  {
    hide Mapped, Closure, TEMPLATE;
    var todo := m.initialStates.Keys;
    while todo != {}
      invariant todo <= m.initialStates.Keys && m.Valid() && states.Valid()
      invariant machine.initialStates.Keys == m.initialStates.Keys - todo
      invariant Starts(m.nodes, m.initialStates, machine.initialStates, states.newToOldDict)
      invariant forall d :: 0 <= d < |machine.states| ==> machine.states[d].next == TEMPLATE
      decreases |todo|
    {
      var name :| name in todo;
      var closure := m.EpsilonClosure(m.initialStates[name]);
      ghost var sets := states.newToOldDict;
      ClosureNodes(m.nodes, {m.initialStates[name]});
      var state := states.OldToNew(closure);
      StartsGrow(m.nodes, m.initialStates, machine.initialStates, sets, states.newToOldDict);
      machine.MakeInitialState(name, state);
      todo := todo - {name};
    }
  }

  /** The list of states grows while it is gone through; there are only so many sets of nodes. */
  method NfaToDfa(m: Machine) returns (machine: FastMachine, ghost sets: seq<States>)
    requires m.Valid()
    modifies m`closures
    ensures m.Valid() && fresh(machine) && machine.initialStates.Keys == m.initialStates.Keys
    ensures Determinizes(m.nodes, machine.states, sets) && Starts(m.nodes, m.initialStates, machine.initialStates, sets)
  {
    hide Mapped, Finished, Starts, Gathered, TEMPLATE, Subsets;
    machine := new FastMachine();
    var states := new StateMap(m.nodes, machine);
    AddInitialStates(m, machine, states);
    var i := 0;
    while i < |machine.states|
      invariant i <= |machine.states| && m.Valid() && states.Valid()
      invariant machine.initialStates.Keys == m.initialStates.Keys
      invariant Starts(m.nodes, m.initialStates, machine.initialStates, states.newToOldDict)
      invariant |states.newToOldDict| == |machine.states|
      invariant forall d :: 0 <= d < i ==> Finished(m.nodes, machine.states[d], states.newToOldDict, states.newToOldDict[d])
      invariant forall d :: i <= d < |machine.states| ==> machine.states[d].next == TEMPLATE
      decreases |Subsets(|m.nodes|)| - i
    {
      MappedCount(m.nodes, machine.states, states.oldToNewDict, states.newToOldDict);
      ghost var sets, was := states.newToOldDict, machine.states;
      MappedNodes(states, i);
      var transitions := Gather(m, states.newToOldDict[i]);
      Connect(states, states.newToOldDict[i], i, transitions);
      StartsGrow(m.nodes, m.initialStates, machine.initialStates, sets, states.newToOldDict);
      MappedNodes(states, i);
      forall d | 0 <= d < i
        ensures Finished(m.nodes, machine.states[d], states.newToOldDict, states.newToOldDict[d])
      {
        FinishedGrows(m.nodes, was[d], sets, sets[d], states.newToOldDict);
      }
      i := i + 1;
    }
    sets := states.newToOldDict;
    MappedBest(states);
  }

  lemma MappedNodes(states: StateMap, d: nat)
    requires states.Valid() && d < |states.newMachine.states|
    ensures states.newToOldDict[d] <= All(|states.nodes|)
  {
  }

  lemma MappedBest(states: StateMap)
    requires states.Valid()
    ensures forall d :: 0 <= d < |states.newMachine.states| ==>
              d < |states.newToOldDict| && IsBest(states.nodes, states.newToOldDict[d], states.newMachine.states[d].action)
  {
  }

  // ----- Main results -----

  /** After any input the new machine is in the state that stands for what the old one reaches, or blocked if that is
      nothing. */
  lemma {:induction false} DeterministicAgrees(nodes: seq<Node>, states: seq<FastState>, sets: seq<States>, start: nat,
                                               s: nat, word: seq<Input>)
    requires ValidNodes(nodes) && Determinizes(nodes, states, sets)
    requires start < |states| && sets[start] == Closure(nodes, {s})
    ensures match Run(states, start, word)
            case None => Reached(nodes, s, word) == {}
            case Some(d) => d < |states| && sets[d] == Reached(nodes, s, word)
    decreases |word|
  {
    hide Closure, Step, Reached, Follow, Finished;
    if word == [] {
      ReachedStep(nodes, s, [], Code(0));
    } else {
      var most, x := word[..|word| - 1], word[|word| - 1];
      DeterministicAgrees(nodes, states, sets, start, s, most);
      assert word == most + [x];
      ReachedStep(nodes, s, most, x);
      RunMore(states, start, most, x);
      match Run(states, start, most)
      case None => StepNothing(nodes, x);
      case Some(d) => FinishedStep(nodes, states[d], sets, sets[d], x);
    }
  }

  lemma FinishedStep(nodes: seq<Node>, state: FastState, sets: seq<States>, states: States, x: Input)
    requires ValidNodes(nodes) && Finished(nodes, state, sets, states)
    ensures GoesOn(nodes, state, sets, states, x)
  {
  }

  /** So it has the action of the highest priority among the nodes reached, on every input. */
  lemma SameAction(nodes: seq<Node>, states: seq<FastState>, sets: seq<States>, start: nat, s: nat, word: seq<Input>)
    requires ValidNodes(nodes) && Determinizes(nodes, states, sets)
    requires start < |states| && sets[start] == Closure(nodes, {s})
    ensures IsBest(nodes, Reached(nodes, s, word), ActionAfter(states, start, word))
  {
    hide Closure, Reached, Finished, Run;
    DeterministicAgrees(nodes, states, sets, start, s, word);
  }

  lemma FinishedLinked(nodes: seq<Node>, states: seq<FastState>, sets: seq<States>)
    requires ValidNodes(nodes) && Determinizes(nodes, states, sets)
    ensures Linked(states)
  {
    hide Follow, Step, IsBest, Finished;
    forall d, x: Input | 0 <= d < |states| && Follow(states[d], x).Some?
      ensures Follow(states[d], x).value < |states|
    {
      FinishedStep(nodes, states[d], sets, sets[d], x);
    }
  }

  /** Converting and scanning finds the longest prefix after which the old machine has reached a node with an action,
      and the best action there; or nothing, if no prefix has one. */
  method Recognise(m: Machine, name: string, word: seq<Input>) returns (action: Option<nat>, length: nat)
    requires m.Valid() && name in m.initialStates
    modifies m`closures
    ensures m.Valid() && length <= |word|
    ensures action.Some? ==> IsBest(m.nodes, Reached(m.nodes, m.initialStates[name], word[..length]), action)
    ensures forall k :: (if action.Some? then length else -1) < k <= |word| ==>
              IsBest(m.nodes, Reached(m.nodes, m.initialStates[name], word[..k]), None)
  {
    hide Reached, Closure, IsBest, Finished, ActionAfter;
    var machine, sets := NfaToDfa(m);
    FinishedLinked(m.nodes, machine.states, sets);
    var start := machine.initialStates[name];
    action, length := machine.Scan(start, word);
    forall k | 0 <= k <= |word|
      ensures IsBest(m.nodes, Reached(m.nodes, m.initialStates[name], word[..k]),
                     ActionAfter(machine.states, start, word[..k]))
    {
      SameAction(m.nodes, machine.states, sets, start, m.initialStates[name], word[..k]);
    }
  }
}
