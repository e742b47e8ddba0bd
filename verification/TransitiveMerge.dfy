/** The memoised search of Cython/Build/Dependencies.py that merges, over a possibly cyclic import
    graph, what is extracted from every file reachable from a query.

    `TransitiveMergeHelper` is the recursion with its persistent cache and its stack; it does not cache
    the partial results it obtains inside a cycle.  `Closure` is the reference: the union of the
    extracted sets over all reachable nodes. */
module TransitiveMerge {

  datatype Option<+T> = None | Some(value: T)

  /** An import graph with the data attached to its nodes. `nodes` is the finite set of files. */
  datatype Graph<!Node(==, !new), !Dep(==, !new)> = Graph(nodes: set<Node>, outgoing: Node -> seq<Node>, extract: Node -> set<Dep>)
  {
    ghost predicate Closed() {
      forall n, k :: n in nodes && 0 <= k < |outgoing(n)| ==> outgoing(n)[k] in nodes
    }

    ghost predicate IsPath(p: seq<Node>) {
      p != [] && forall i :: 0 <= i < |p| - 1 ==> p[i + 1] in outgoing(p[i])
    }

    ghost predicate Reaches(from: Node, to: Node) {
      exists p :: IsPath(p) && p[0] == from && p[|p| - 1] == to
    }

    /** The union of the extracted sets over everything reachable from `node`. */
    ghost function Closure(node: Node): set<Dep> {
      set x, d | x in nodes && Reaches(node, x) && d in extract(x) :: d
    }

    /** `deps` has everything extracted along paths from `node` that meet no node of `avoid`. */
    ghost predicate Covers(node: Node, avoid: set<Node>, deps: set<Dep>) {
      forall p :: IsPath(p) && p[0] == node && (forall i :: 0 <= i < |p| ==> p[i] !in avoid) ==>
        extract(p[|p| - 1]) <= deps
    }

    lemma ReachesSelf(node: Node)
      ensures Reaches(node, node)
    {
      assert IsPath([node]) && [node][0] == node;
    }

    lemma ReachesStep(node: Node, k: nat, x: Node)
      requires k < |outgoing(node)| && Reaches(outgoing(node)[k], x)
      ensures Reaches(node, x)
    {
      var p :| IsPath(p) && p[0] == outgoing(node)[k] && p[|p| - 1] == x;
      var q := [node] + p;
      forall i | 0 <= i < |q| - 1
        ensures q[i + 1] in outgoing(q[i])
      {
        if i > 0 {
          assert p[i - 1 + 1] in outgoing(p[i - 1]);
        }
      }
      assert IsPath(q) && q[0] == node && q[|q| - 1] == x;
    }

    lemma {:induction false} PathStaysInside(p: seq<Node>)
      requires Closed() && IsPath(p) && p[0] in nodes
      ensures forall i :: 0 <= i < |p| ==> p[i] in nodes
    {
      if |p| > 1 {
        var k :| 0 <= k < |outgoing(p[0])| && outgoing(p[0])[k] == p[1];
        TailIsPath(p, 1);
        PathStaysInside(p[1..]);
        forall i | 0 <= i < |p|
          ensures p[i] in nodes
        {
          if i > 0 {
            assert p[i] == p[1..][i - 1];
          }
        }
      }
    }

    lemma TailIsPath(p: seq<Node>, k: nat)
      requires IsPath(p) && k < |p|
      ensures IsPath(p[k..]) && p[k..][0] == p[k] && p[k..][|p| - k - 1] == p[|p| - 1]
    {
      var t := p[k..];
      forall i | 0 <= i < |t| - 1
        ensures t[i + 1] in outgoing(t[i])
      {
        assert p[k + i + 1] in outgoing(p[k + i]);
      }
    }

    /** What a child contributes belongs to its parent's closure. */
    lemma ClosureStep(node: Node, k: nat)
      requires k < |outgoing(node)|
      ensures Closure(outgoing(node)[k]) <= Closure(node)
    {
      forall d | d in Closure(outgoing(node)[k])
        ensures d in Closure(node)
      {
        var x :| x in nodes && Reaches(outgoing(node)[k], x) && d in extract(x);
        ReachesStep(node, k, x);
      }
    }

    lemma OwnDeps(node: Node)
      requires node in nodes
      ensures extract(node) <= Closure(node)
    {
      ReachesSelf(node);
    }

    /** Sound and complete along all paths means exact. */
    lemma CoversExactly(node: Node, deps: set<Dep>)
      requires deps <= Closure(node) && Covers(node, {}, deps)
      ensures deps == Closure(node)
    {
      forall d | d in Closure(node)
        ensures d in deps
      {
        var x :| x in nodes && Reaches(node, x) && d in extract(x);
        var p :| IsPath(p) && p[0] == node && p[|p| - 1] == x;
        assert extract(p[|p| - 1]) <= deps;
      }
    }

    lemma ClosureCovers(node: Node, avoid: set<Node>)
      requires Closed() && node in nodes
      ensures Covers(node, avoid, Closure(node))
    {
      forall p | IsPath(p) && p[0] == node && (forall i :: 0 <= i < |p| ==> p[i] !in avoid)
        ensures extract(p[|p| - 1]) <= Closure(node)
      {
        PathStaysInside(p);
        assert Reaches(node, p[|p| - 1]);
      }
    }

    lemma CoversMore(node: Node, avoid: set<Node>, deps: set<Dep>, avoid': set<Node>, deps': set<Dep>)
      requires Covers(node, avoid, deps) && avoid <= avoid' && deps <= deps'
      ensures Covers(node, avoid', deps')
    {
      forall p | IsPath(p) && p[0] == node && (forall i :: 0 <= i < |p| ==> p[i] !in avoid')
        ensures extract(p[|p| - 1]) <= deps'
      {
        assert forall i :: 0 <= i < |p| ==> p[i] !in avoid;
        assert extract(p[|p| - 1]) <= deps;
      }
    }

    /** A node is covered once all its children are, even when the children avoid the node itself:
        a path may be cut at its last visit to the node. */
    lemma {:induction false} CoverPath(node: Node, avoid: set<Node>, deps: set<Dep>, p: seq<Node>)
      requires extract(node) <= deps
      requires forall c :: c in outgoing(node) ==> Covers(c, avoid + {node}, deps)
      requires IsPath(p) && p[0] == node && (forall i :: 0 <= i < |p| ==> p[i] !in avoid)
      ensures extract(p[|p| - 1]) <= deps
      decreases |p|
    {
      if i :| 1 <= i < |p| && p[i] == node {
        TailIsPath(p, i);
        CoverPath(node, avoid, deps, p[i..]);
      } else if |p| > 1 {
        TailIsPath(p, 1);
        assert p[0 + 1] in outgoing(p[0]);
        var t := p[1..];
        assert Covers(t[0], avoid + {node}, deps);
        assert extract(t[|t| - 1]) <= deps;
      }
    }

    lemma CoverNode(node: Node, avoid: set<Node>, deps: set<Dep>)
      requires extract(node) <= deps
      requires forall c :: c in outgoing(node) ==> Covers(c, avoid + {node}, deps)
      ensures Covers(node, avoid, deps)
    {
      forall p | IsPath(p) && p[0] == node && (forall i :: 0 <= i < |p| ==> p[i] !in avoid)
        ensures extract(p[|p| - 1]) <= deps
      {
        CoverPath(node, avoid, deps, p);
      }
    }
  }

  /** The nodes at or above a stack position; none when there is no loop. */
  ghost function Above<Node(!new)>(index: map<Node, nat>, loop: Option<Node>): set<Node>
    requires loop.Some? ==> loop.value in index
  {
    if loop.None? then {} else set s | s in index && index[s] >= index[loop.value]
  }

  /** The stack of one query: the nodes being visited with their positions. */
  class Stack<!Node(==, !new)> {
    var index: map<Node, nat>

    constructor ()
      ensures index == map[]
    {
      index := map[];
    }

    method Push(node: Node)
      modifies this
      ensures index == old(index)[node := |old(index)|]
    {
      index := index[node := |index|];
    }

    method Pop(node: Node, ghost before: map<Node, nat>)
      requires node !in before && index == before[node := |before|]
      modifies this
      ensures index == before
    {
      index := map n | n in index && n != node :: index[n];
    }
  }

  class DependencyTree<!Node(==, !new), !Dep(==, !new)> {
    const graph: Graph<Node, Dep>
    var seen: map<Node, set<Dep>>

    constructor (graph: Graph<Node, Dep>)
      requires graph.Closed()
      ensures Valid() && this.graph == graph && seen == map[]
    {
      this.graph := graph;
      seen := map[];
    }

    /** Every entry of the persistent cache is exact. */
    ghost predicate Valid()
      reads this
    {
      && graph.Closed()
      && forall n :: n in seen ==> n in graph.nodes && seen[n] == graph.Closure(n)
    }

    ghost predicate StackOk(index: map<Node, nat>) {
      index.Keys <= graph.nodes && forall n :: n in index ==> index[n] < |index|
    }

    /** One visit.  The result is always sound; it is exact when no loop is reported, and otherwise it
        covers all paths that avoid the stack from the reported node upwards. */
    method TransitiveMergeHelper(node: Node, stack: Stack<Node>) returns (deps: set<Dep>, loop: Option<Node>)
      requires Valid() && node in graph.nodes && StackOk(stack.index)
      modifies this`seen, stack
      ensures Valid() && stack.index == old(stack.index)
      ensures forall n :: n in old(seen) ==> n in seen
      ensures loop.Some? ==> loop.value in stack.index
      ensures deps <= graph.Closure(node)
      ensures graph.Covers(node, Above(stack.index, loop), deps)
      decreases graph.nodes - stack.index.Keys, 0
    {
      hide Graph.Covers, Graph.Closure, Above;
      AboveNone(stack.index);
      if node in seen {
        graph.ClosureCovers(node, {});
        return seen[node], None;
      }
      if node in stack.index {
        deps := graph.extract(node);
        graph.OwnDeps(node);
        OnStack(node, stack.index, deps);
        return deps, Some(node);
      }
      ghost var before := stack.index;
      PushOk(before, node);
      stack.Push(node);
      assert node in graph.nodes - before.Keys && node !in graph.nodes - stack.index.Keys;
      deps, loop := VisitChildren(node, stack);
      CoverParent(node, before, loop, deps);
      if loop == Some(node) {
        loop := None;
      }
      if loop == None {
        graph.CoversExactly(node, deps);
        seen := seen[node := deps];
      }
      stack.Pop(node, before);
    }

    /** The loop over the imports of a node that is on the stack. */
    method VisitChildren(node: Node, stack: Stack<Node>) returns (deps: set<Dep>, loop: Option<Node>)
      requires Valid() && node in graph.nodes && StackOk(stack.index)
      modifies this`seen, stack
      ensures Valid() && stack.index == old(stack.index)
      ensures forall n :: n in old(seen) ==> n in seen
      ensures loop.Some? ==> loop.value in stack.index
      ensures graph.extract(node) <= deps <= graph.Closure(node)
      ensures forall j :: 0 <= j < |graph.outgoing(node)| ==>
        graph.Covers(graph.outgoing(node)[j], Above(stack.index, loop), deps)
      decreases graph.nodes - stack.index.Keys, 1
    {
      hide Graph.Covers, Graph.Closure, Above;
      deps := graph.extract(node);
      graph.OwnDeps(node);
      ghost var index := stack.index;
      loop := None;
      var children := graph.outgoing(node);
      for k := 0 to |children|
        invariant Valid() && stack.index == index
        invariant forall n :: n in old(seen) ==> n in seen
        invariant loop.Some? ==> loop.value in index
        invariant graph.extract(node) <= deps <= graph.Closure(node)
        invariant forall j :: 0 <= j < k ==> graph.Covers(children[j], Above(index, loop), deps)
      {
        var subDeps, subLoop := TransitiveMergeHelper(children[k], stack);
        ghost var loopBefore, depsBefore := loop, deps;
        if subLoop.Some? {
          if loop.Some? && stack.index[loop.value] < stack.index[subLoop.value] {
          } else {
            loop := subLoop;
          }
        }
        deps := deps + subDeps;
        graph.ClosureStep(node, k);
        MergeChild(children, k, index, loopBefore, depsBefore, subLoop, subDeps, loop);
      }
    }

    /** The older of the two loops covers for both, so merging one more child keeps what is covered. */
    lemma MergeChild(children: seq<Node>, k: nat, index: map<Node, nat>, loop: Option<Node>, deps: set<Dep>,
                     subLoop: Option<Node>, subDeps: set<Dep>, loop': Option<Node>)
      requires k < |children|
      requires loop.Some? ==> loop.value in index
      requires subLoop.Some? ==> subLoop.value in index
      requires loop' == if subLoop.None? || (loop.Some? && index[loop.value] < index[subLoop.value]) then loop else subLoop
      requires forall j :: 0 <= j < k ==> graph.Covers(children[j], Above(index, loop), deps)
      requires graph.Covers(children[k], Above(index, subLoop), subDeps)
      ensures forall j :: 0 <= j < k + 1 ==> graph.Covers(children[j], Above(index, loop'), deps + subDeps)
    {
      assert Above(index, loop) <= Above(index, loop') && Above(index, subLoop) <= Above(index, loop');
      forall j | 0 <= j < k + 1
        ensures graph.Covers(children[j], Above(index, loop'), deps + subDeps)
      {
        if j < k {
          graph.CoversMore(children[j], Above(index, loop), deps, Above(index, loop'), deps + subDeps);
        } else {
          graph.CoversMore(children[k], Above(index, subLoop), subDeps, Above(index, loop'), deps + subDeps);
        }
      }
    }

    lemma AboveNone(index: map<Node, nat>)
      ensures Above(index, None) == {}
    {
    }

    lemma OnStack(node: Node, index: map<Node, nat>, deps: set<Dep>)
      requires node in index
      ensures graph.Covers(node, Above(index, Some(node)), deps)
    {
      assert node in Above(index, Some(node));
    }

    lemma PushOk(index: map<Node, nat>, node: Node)
      requires StackOk(index) && node in graph.nodes && node !in index
      ensures StackOk(index[node := |index|])
    {
      var pushed := index[node := |index|];
      assert pushed.Keys == index.Keys + {node};
      assert |pushed| == |pushed.Keys| == |index.Keys| + 1;
    }

    /** From the children, which avoid the stack with `node` on it, to `node` itself. */
    lemma CoverParent(node: Node, before: map<Node, nat>, loop: Option<Node>, deps: set<Dep>)
      requires StackOk(before) && node !in before
      requires loop.Some? ==> loop.value in before[node := |before|]
      requires graph.extract(node) <= deps
      requires forall j :: 0 <= j < |graph.outgoing(node)| ==>
        graph.Covers(graph.outgoing(node)[j], Above(before[node := |before|], loop), deps)
      ensures graph.Covers(node, Above(before, if loop == Some(node) then None else loop), deps)
      ensures loop.None? || loop == Some(node) ==> graph.Covers(node, {}, deps)
    {
      var pushed, loop' := before[node := |before|], if loop == Some(node) then None else loop;
      var avoid := Above(before, loop');
      assert Above(pushed, loop) <= avoid + {node};
      forall c | c in graph.outgoing(node)
        ensures graph.Covers(c, avoid + {node}, deps)
      {
        var j :| 0 <= j < |graph.outgoing(node)| && graph.outgoing(node)[j] == c;
        graph.CoversMore(c, Above(pushed, loop), deps, avoid + {node}, deps);
      }
      graph.CoverNode(node, avoid, deps);
    }

    /** A query returns exactly the closure and leaves an exact cache behind, so any sequence of queries
        is answered exactly. */
    method TransitiveMerge(node: Node) returns (deps: set<Dep>)
      requires Valid() && node in graph.nodes
      modifies this`seen
      ensures Valid() && deps == graph.Closure(node)
      ensures forall n :: n in old(seen) ==> n in seen
    {
      var stack := new Stack<Node>();
      var loop;
      deps, loop := TransitiveMergeHelper(node, stack);
      assert Above(stack.index, loop) == {};
      graph.CoversExactly(node, deps);
    }
  }

  /** Any sequence of queries on one tree. */
  method AnswerQueries<Node(==, !new), Dep(==, !new)>(tree: DependencyTree<Node, Dep>, queries: seq<Node>) returns (answers: seq<set<Dep>>)
    requires tree.Valid() && forall q :: q in queries ==> q in tree.graph.nodes
    modifies tree`seen
    ensures tree.Valid() && |answers| == |queries|
    ensures forall i :: 0 <= i < |queries| ==> answers[i] == tree.graph.Closure(queries[i])
  {
    answers := [];
    for i := 0 to |queries|
      invariant tree.Valid() && |answers| == i
      invariant forall j :: 0 <= j < i ==> answers[j] == tree.graph.Closure(queries[j])
    {
      var a := tree.TransitiveMerge(queries[i]);
      answers := answers + [a];
    }
  }

  // ----- The use of the search for file dependencies -----

  /** The graph of one set of files: what a file depends on at once is itself, the files it cimports
      and the files it includes; the search follows cimports only. */
  function FileGraph(files: set<string>, cimported: string -> seq<string>, included: string -> set<string>)
    : Graph<string, string>
  {
    Graph(files, cimported, f => {f} + (set g | g in cimported(f)) + included(f))
  }

  /** The dependencies of a file are the files reachable over cimports and what these include. */
  lemma AllDependencies(files: set<string>, cimported: string -> seq<string>, included: string -> set<string>, file: string)
    requires FileGraph(files, cimported, included).Closed() && file in files
    ensures var graph := FileGraph(files, cimported, included);
      forall d :: d in graph.Closure(file) <==>
        || (d in files && graph.Reaches(file, d))
        || exists x :: x in files && graph.Reaches(file, x) && d in included(x)
  {
    var graph := FileGraph(files, cimported, included);
    forall d
      ensures d in graph.Closure(file) <==>
        || (d in files && graph.Reaches(file, d))
        || exists x :: x in files && graph.Reaches(file, x) && d in included(x)
    {
      if d in graph.Closure(file) {
        var x :| x in files && graph.Reaches(file, x) && d in graph.extract(x);
        if d in graph.outgoing(x) {
          var p :| graph.IsPath(p) && p[0] == file && p[|p| - 1] == x;
          ExtendPath(graph, p, d);
          var q := p + [d];
          assert q[0] == file && q[|q| - 1] == d;
          var k :| 0 <= k < |graph.outgoing(x)| && graph.outgoing(x)[k] == d;
        }
      }
      if d in files && graph.Reaches(file, d) {
        assert d in graph.extract(d);
      }
      if x :| x in files && graph.Reaches(file, x) && d in included(x) {
        assert d in graph.extract(x);
      }
    }
  }

  lemma ExtendPath<Node(!new), Dep(!new)>(graph: Graph<Node, Dep>, p: seq<Node>, d: Node)
    requires graph.IsPath(p) && d in graph.outgoing(p[|p| - 1])
    ensures graph.IsPath(p + [d])
  {
    var q := p + [d];
    forall i | 0 <= i < |q| - 1
      ensures q[i + 1] in graph.outgoing(q[i])
    {
      if i < |p| - 1 {
        assert p[i + 1] in graph.outgoing(p[i]);
      }
    }
  }
}
