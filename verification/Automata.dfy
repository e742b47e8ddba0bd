/** The nondeterministic machines of Cython/Plex/Machines.py, what they reach on an input, and the closures under
    epsilon moves of Cython/Plex/DFA.py.  Nodes and actions are numbers. */
module Automata {
  import opened TransitionMaps

  datatype Option<+T> = None | Some(value: T)

  const LOWEST_PRIORITY := -MAXINT
  const MAX_CODE := 0x10FFFF

  datatype Node = Node(moves: Table, action: Option<nat>, priority: int)

  /** What a scanner reads: characters, and marks for the beginning and the end of lines and of the file. */
  predicate IsInput(p: Point) {
    match p
    case Code(c) => 0 <= c <= MAX_CODE
    case Mark(symbol) => symbol != Epsilon
  }

  type Input = p: Point | IsInput(p) witness Code(0)

  predicate Below(s: nat, n: nat) {
    s < n
  }

  function All(n: nat): (states: States)
    ensures forall s: nat :: s in states <==> s < n
  {
    set s: nat | s < n && Below(s, n)
  }

  /** All split points are codes of characters, or one more. */
  predicate CharacterCodes(codes: seq<int>) {
    forall i :: 0 < i < |codes| - 1 ==> 0 <= codes[i] <= MAX_CODE + 1
  }

  ghost predicate ValidNode(n: nat, node: Node) {
    && node.moves.Valid() && node.moves.SameEnds() && CharacterCodes(node.moves.codes)
    && (forall p :: IsPoint(p) ==> node.moves.Get(p) <= All(n))
    && node.priority >= LOWEST_PRIORITY && (node.priority == LOWEST_PRIORITY <==> node.action == None)
  }

  ghost predicate ValidNodes(nodes: seq<Node>) {
    forall s :: 0 <= s < |nodes| ==> ValidNode(|nodes|, nodes[s])
  }

  function Epsilons(nodes: seq<Node>, s: nat): States
    requires s < |nodes| && nodes[s].moves.Valid()
  {
    nodes[s].moves.Get(Mark(Epsilon))
  }

  // ----- What a machine reaches -----

  ghost predicate IsPath(nodes: seq<Node>, path: seq<nat>)
    requires ValidNodes(nodes)
  {
    && path != [] && (forall i :: 0 <= i < |path| ==> path[i] < |nodes|)
    && forall i :: 0 <= i < |path| - 1 ==> path[i + 1] in Epsilons(nodes, path[i])
  }

  /** By epsilon moves alone. */
  ghost predicate Reaches(nodes: seq<Node>, s: nat, t: nat)
    requires ValidNodes(nodes)
  {
    exists path :: IsPath(nodes, path) && path[0] == s && path[|path| - 1] == t
  }

  /** By the moves on some input, with epsilon moves before, between and after them. */
  ghost predicate Runs(nodes: seq<Node>, s: nat, word: seq<Input>, t: nat)
    requires ValidNodes(nodes)
    decreases |word|
  {
    if word == [] then Reaches(nodes, s, t)
    else
      exists m: nat, u: nat ::
        m < |nodes| && Runs(nodes, s, word[..|word| - 1], m) && u in nodes[m].moves.Get(word[|word| - 1]) && Reaches(nodes, u, t)
  }

  ghost function Reached(nodes: seq<Node>, s: nat, word: seq<Input>): States
    requires ValidNodes(nodes)
  {
    set t: nat | t < |nodes| && Runs(nodes, s, word, t)
  }

  ghost predicate ReachedFrom(nodes: seq<Node>, states: States, t: nat)
    requires ValidNodes(nodes)
  {
    exists s :: s in states && Reaches(nodes, s, t)
  }

  ghost function Closure(nodes: seq<Node>, states: States): States
    requires ValidNodes(nodes)
  {
    set t: nat | t < |nodes| && ReachedFrom(nodes, states, t)
  }

  ghost predicate StepsTo(nodes: seq<Node>, states: States, p: Point, t: nat)
    requires ValidNodes(nodes) && IsPoint(p)
  {
    exists m: nat, u: nat :: m in states && m < |nodes| && u in nodes[m].moves.Get(p) && Reaches(nodes, u, t)
  }

  /** The moves from a set of nodes and the epsilon moves after them. */
  ghost function Step(nodes: seq<Node>, states: States, p: Point): States
    requires ValidNodes(nodes) && IsPoint(p)
  {
    set t: nat | t < |nodes| && StepsTo(nodes, states, p, t)
  }

  /** What is reached on an input is found step by step. */
  lemma ReachedStep(nodes: seq<Node>, s: nat, word: seq<Input>, x: Input)
    requires ValidNodes(nodes)
    ensures Reached(nodes, s, word + [x]) == Step(nodes, Reached(nodes, s, word), x)
    ensures Reached(nodes, s, []) == Closure(nodes, {s})
  {
    hide Reaches;
    assert (word + [x])[..|word|] == word;
    assert s in {s};
  }

  /** The action of a set of nodes: that of a node of the highest priority, and none if no node has one. */
  ghost predicate IsBest(nodes: seq<Node>, states: States, action: Option<nat>) {
    match action
    case None => forall s <- states :: s < |nodes| ==> nodes[s].action == None
    case Some(_) =>
      exists s :: s in states && s < |nodes| && nodes[s].action == action &&
        forall t <- states :: t < |nodes| ==> nodes[t].priority <= nodes[s].priority
  }

  /** If no two actions have the same priority, the action of a set is determined. */
  lemma BestIsUnique(nodes: seq<Node>, states: States, a: Option<nat>, b: Option<nat>)
    requires ValidNodes(nodes) && IsBest(nodes, states, a) && IsBest(nodes, states, b)
    requires forall s, t :: 0 <= s < |nodes| && 0 <= t < |nodes| && nodes[s].priority == nodes[t].priority ==>
               nodes[s].action == nodes[t].action
    ensures a == b
  {
    hide ValidNode;
    if a.Some? && b.Some? {
      var s :| s in states && s < |nodes| && nodes[s].action == a &&
        forall t <- states :: t < |nodes| ==> nodes[t].priority <= nodes[s].priority;
      var t :| t in states && t < |nodes| && nodes[t].action == b &&
        forall u <- states :: u < |nodes| ==> nodes[u].priority <= nodes[t].priority;
      assert nodes[s].priority == nodes[t].priority;
    }
  }

  // ----- Paths -----

  lemma ReachesSelf(nodes: seq<Node>, s: nat)
    requires ValidNodes(nodes) && s < |nodes|
    ensures Reaches(nodes, s, s)
  {
    assert IsPath(nodes, [s]) && [s][0] == s;
  }

  lemma ReachesFrom(nodes: seq<Node>, s: nat, m: nat, t: nat)
    requires ValidNodes(nodes) && s < |nodes| && m in Epsilons(nodes, s) && Reaches(nodes, m, t)
    ensures Reaches(nodes, s, t)
  {
    var path :| IsPath(nodes, path) && path[0] == m && path[|path| - 1] == t;
    var longer := [s] + path;
    forall i | 0 <= i < |longer| - 1
      ensures longer[i + 1] in Epsilons(nodes, longer[i])
    {
      if i > 0 {
        assert path[i - 1 + 1] in Epsilons(nodes, path[i - 1]);
      }
    }
    assert IsPath(nodes, longer) && longer[0] == s && longer[|longer| - 1] == t;
  }

  /** A set without epsilon moves out of it keeps the paths that begin in it. */
  lemma {:induction false} PathStays(nodes: seq<Node>, path: seq<nat>, states: States)
    requires ValidNodes(nodes) && IsPath(nodes, path) && path[0] in states
    requires forall x <- states :: x < |nodes| && Epsilons(nodes, x) <= states
    ensures path[|path| - 1] in states
    decreases |path|
  {
    if |path| > 1 {
      var most := path[..|path| - 1];
      var i := |path| - 2;
      PathStays(nodes, most, states);
      assert most[|most| - 1] == path[i] && path[i + 1] in Epsilons(nodes, path[i]);
    }
  }

  lemma ReachesWithin(nodes: seq<Node>, s: nat, t: nat)
    requires ValidNodes(nodes) && Reaches(nodes, s, t)
    ensures s < |nodes| && t < |nodes|
  {
  }

  // ----- Closures -----

  lemma Smaller(a: States, b: States)
    requires a <= b
    ensures |a| <= |b|
  {
    assert b == a + (b - a);
  }

  lemma Fewer(n: nat, states: States, s: nat)
    requires s < n && s !in states
    ensures |All(n) - (states + {s})| < |All(n) - states|
  {
    assert s in All(n) - states;
    assert All(n) - (states + {s}) == All(n) - states - {s};
  }

  /** The machine, with the closures that have been computed kept at its nodes. */
  class Machine {
    const nodes: seq<Node>
    const initialStates: map<string, nat>
    var closures: map<nat, States>

    constructor (nodes: seq<Node>, initialStates: map<string, nat>)
      requires ValidNodes(nodes) && forall name <- initialStates :: initialStates[name] < |nodes|
      ensures Valid() && this.nodes == nodes && this.initialStates == initialStates
    {
      this.nodes, this.initialStates, closures := nodes, initialStates, map[];
    }

    ghost predicate Valid()
      reads this
    {
      && ValidNodes(nodes)
      && (forall name <- initialStates :: initialStates[name] < |nodes|)
      && forall s :: s in closures ==> s < |nodes| && closures[s] == Closure(nodes, {s})
    }

    /** Adds a node and what it reaches past the nodes that are there. */
    method AddToEpsilonClosure(states: States, s: nat) returns (r: States)
      requires ValidNodes(nodes) && s < |nodes| && states <= All(|nodes|)
      ensures states <= r <= All(|nodes|) && s in r
      ensures forall x <- r - states :: Reaches(nodes, s, x) && Epsilons(nodes, x) <= r
      decreases |All(|nodes|) - states|
    {
      hide Reaches;
      r := states;
      if s !in states {
        r := states + {s};
        ReachesSelf(nodes, s);
        Fewer(|nodes|, states, s);
        var next := nodes[s].moves.Get(Mark(Epsilon));
        var todo := next;
        while todo != {}
          invariant todo <= next && states + {s} <= r <= All(|nodes|) && next - todo <= r
          invariant forall x <- r - states :: Reaches(nodes, s, x) && (x == s || Epsilons(nodes, x) <= r)
          decreases |todo|
        {
          var t :| t in todo;
          assert |All(|nodes|) - r| <= |All(|nodes|) - (states + {s})| by {
            Smaller(All(|nodes|) - r, All(|nodes|) - (states + {s}));
          }
          ghost var before := r;
          r := AddToEpsilonClosure(r, t);
          forall x | x in r - before
            ensures Reaches(nodes, s, x)
          {
            ReachesFrom(nodes, s, t, x);
          }
          todo := todo - {t};
        }
      }
    }

    method EpsilonClosure(s: nat) returns (r: States)
      requires Valid() && s < |nodes|
      modifies this`closures
      ensures Valid() && r == Closure(nodes, {s})
    {
      hide Reaches, ValidNode, Closure;
      if s in closures {
        return closures[s];
      }
      r := AddToEpsilonClosure({}, s);
      ClosedIsClosure(nodes, s, r);
      closures := closures[s := r];
    }

    /** The union of the closures. */
    method SetEpsilonClosure(states: States) returns (r: States)
      requires Valid() && states <= All(|nodes|)
      modifies this`closures
      ensures Valid() && r == Closure(nodes, states)
    {
      hide Reaches, ValidNode, Closure;
      r := {};
      var todo := states;
      NothingReached(nodes);
      assert states - todo == {};
      while todo != {}
        invariant todo <= states && Valid()
        invariant r == Closure(nodes, states - todo)
        decreases |todo|
      {
        var s :| s in todo;
        var c := EpsilonClosure(s);
        ClosureUnion(nodes, states - todo, {s});
        assert states - (todo - {s}) == states - todo + {s};
        r, todo := r + c, todo - {s};
      }
      assert states - todo == states;
    }
  }

  lemma NothingReached(nodes: seq<Node>)
    requires ValidNodes(nodes)
    ensures Closure(nodes, {}) == {}
  {
    hide Reaches;
  }

  lemma ClosureUnion(nodes: seq<Node>, a: States, b: States)
    requires ValidNodes(nodes)
    ensures Closure(nodes, a + b) == Closure(nodes, a) + Closure(nodes, b)
  {
    hide Reaches;
  }

  lemma ClosedIsClosure(nodes: seq<Node>, s: nat, states: States)
    requires ValidNodes(nodes) && s < |nodes| && s in states && states <= All(|nodes|)
    requires forall x <- states :: Reaches(nodes, s, x) && Epsilons(nodes, x) <= states
    ensures states == Closure(nodes, {s})
  {
    hide ValidNode;
    forall t: nat | t < |nodes| && Reaches(nodes, s, t)
      ensures t in states
    {
      var path :| IsPath(nodes, path) && path[0] == s && path[|path| - 1] == t;
      PathStays(nodes, path, states);
    }
    assert s in {s};
  }
}
