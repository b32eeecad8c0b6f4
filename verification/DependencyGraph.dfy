/** The module dependency graph (workspace/src/framework/impl/module/dependency_graph.cpp). */
module DependencyGraphs {
  import opened Wrappers
  import opened Graphs

  datatype DependencyCycle = DependencyCycle(moduleIds: seq<Id>, symbolicNames: seq<string>)

  datatype GraphError = SourceNotFound | TargetNotFound | ContainsCycles(cycles: seq<DependencyCycle>)

  // ---------------------------------------------------------------------------------------------
  // What the updates do to the graph
  // ---------------------------------------------------------------------------------------------

  function WithEdge(g: Nodes, a: Id, b: Id): Nodes
    requires a in g && b in g
  {
    if b in g[a].dependencies then g
    else
      var h := g[a := g[a].(dependencies := g[a].dependencies + [b], outDegree := g[a].outDegree + 1)];
      h[b := h[b].(dependents := h[b].dependents + [a], inDegree := h[b].inDegree + 1)]
  }

  function DropDependent(n: Node, id: Id): Node {
    n.(dependents := Without(n.dependents, id), inDegree := |Without(n.dependents, id)|)
  }

  function DropDependency(n: Node, id: Id): Node {
    n.(dependencies := Without(n.dependencies, id), outDegree := |Without(n.dependencies, id)|)
  }

  /** The graph without a module and without every edge from or to it. */
  function WithoutNode(g: Nodes, id: Id): Nodes {
    map a | a in g && a != id :: DropDependency(DropDependent(g[a], id), id)
  }

  ghost function PairsTo(s: seq<Id>, b: Id): set<(Id, Id)> {
    set a | a in s :: (a, b)
  }

  lemma WithEdgeAddsOneEdge(g: Nodes, a: Id, b: Id)
    requires a in g && b in g
    ensures HasOneMoreEdge(g, WithEdge(g, a, b), a, b)
    ensures Edges(WithEdge(g, a, b)) == Edges(g) + {(a, b)}
    ensures |Edges(WithEdge(g, a, b))| == |Edges(g)| + if b in g[a].dependencies then 0 else 1
  {
    var h := WithEdge(g, a, b);
    forall x, y
      ensures Edge(h, x, y) <==> Edge(g, x, y) || (x == a && y == b)
    {
    }
    forall e: (Id, Id)
      ensures e in Edges(h) <==> e in Edges(g) + {(a, b)}
    {
      assert e in Edges(h) <==> Edge(h, e.0, e.1);
      assert e in Edges(g) <==> Edge(g, e.0, e.1);
    }
    assert b in g[a].dependencies <==> (a, b) in Edges(g);
    assert b in g[a].dependencies ==> Edges(h) == Edges(g);
  }

  lemma WithEdgeKeepsMirrored(g: Nodes, a: Id, b: Id)
    requires Mirrored(g) && a in g && b in g
    ensures Mirrored(WithEdge(g, a, b))
  {
    var h := WithEdge(g, a, b);
    if h != g {
      assert !Edge(g, a, b) && !BackEdge(g, a, b);
      forall x | x in h
        ensures WellKept(h[x])
      {
        assert WellKept(g[x]);
      }
      forall x, y
        ensures Edge(h, x, y) <==> Edge(g, x, y) || (x == a && y == b)
        ensures BackEdge(h, x, y) <==> BackEdge(g, x, y) || (x == a && y == b)
      {
      }
    }
  }

  /** Renaming a module, or adding one without edges, changes no edge. */
  lemma NamesDoNotMatter(g: Nodes, h: Nodes, id: Id)
    requires Mirrored(g) && id in h
    requires h == g[id := h[id]]
    requires h[id] == (if id in g then g[id].(symbolicName := h[id].symbolicName)
                       else Node(h[id].symbolicName, [], [], 0, 0))
    ensures Mirrored(h) && Edges(h) == Edges(g)
  {
    forall x | x in h
      ensures WellKept(h[x])
    {
      assert x in g ==> WellKept(g[x]);
    }
    forall x, y
      ensures Edge(h, x, y) <==> Edge(g, x, y)
      ensures BackEdge(h, x, y) <==> BackEdge(g, x, y)
    {
    }
    SameEdges(g, h);
  }

  lemma SameEdges(g: Nodes, h: Nodes)
    requires forall x, y :: Edge(h, x, y) <==> Edge(g, x, y)
    ensures Edges(h) == Edges(g)
  {
    forall e: (Id, Id)
      ensures e in Edges(h) <==> e in Edges(g)
    {
      assert Edge(h, e.0, e.1) <==> Edge(g, e.0, e.1);
    }
  }

  lemma WithoutNodeKeepsMirrored(g: Nodes, id: Id)
    requires Mirrored(g)
    ensures Mirrored(WithoutNode(g, id))
  {
    var h := WithoutNode(g, id);
    forall x | x in h
      ensures WellKept(h[x])
    {
      assert WellKept(g[x]);
      WithoutKeepsDistinct(g[x].dependencies, id);
      WithoutKeepsDistinct(g[x].dependents, id);
    }
    forall x, y
      ensures Edge(h, x, y) ==> BackEdge(h, x, y)
      ensures BackEdge(h, x, y) ==> Edge(h, x, y)
    {
      assert Edge(h, x, y) <==> Edge(g, x, y) && x != id && y != id;
      assert BackEdge(h, x, y) <==> BackEdge(g, x, y) && x != id && y != id;
    }
  }

  lemma UnknownNodeIsNotListed(g: Nodes, id: Id)
    requires Mirrored(g) && id !in g
    ensures WithoutNode(g, id) == g
  {
    forall a | a in g
      ensures DropDependency(DropDependent(g[a], id), id) == g[a]
    {
      assert !Edge(g, a, id) && !BackEdge(g, id, a);
      WithoutAbsent(g[a].dependencies, id);
      WithoutAbsent(g[a].dependents, id);
    }
  }

  /** Exactly the edges that avoid the removed module stay. */
  lemma WithoutNodeEdges(g: Nodes, id: Id)
    ensures forall a, b :: Edge(WithoutNode(g, id), a, b) <==> Edge(g, a, b) && a != id && b != id
    ensures Acyclic(g) ==> Acyclic(WithoutNode(g, id))
  {
    SubgraphOfAcyclic(WithoutNode(g, id), g);
  }

  lemma EraseDependent(n: Node, pos: nat, id: Id)
    requires WellKept(n) && pos < |n.dependents| && n.dependents[pos] == id
    ensures n.(dependents := n.dependents[..pos] + n.dependents[pos + 1..], inDegree := n.inDegree - 1) == DropDependent(n, id)
  {
    EraseIsWithout(n.dependents, pos);
  }

  /** After the first loop of RemoveNode no self-loop of `id` is left in its dependents. */
  lemma RemainingDependents(g: Nodes, id: Id)
    requires Mirrored(g) && id in g
    ensures (if id in g[id].dependencies then DropDependent(g[id], id) else g[id]).dependents == Without(g[id].dependents, id)
    ensures Distinct(Without(g[id].dependents, id))
  {
    assert WellKept(g[id]);
    WithoutKeepsDistinct(g[id].dependents, id);
    assert Edge(g, id, id) <==> BackEdge(g, id, id);
    if id !in g[id].dependencies {
      WithoutAbsent(g[id].dependents, id);
    }
  }

  /** The self-loop, if there was one, has gone with the edges from `id`. */
  lemma NoSelfEdgeLeft(g: Nodes, id: Id, rest: set<(Id, Id)>)
    requires id in g && rest == Edges(g) - PairsWith(id, g[id].dependencies)
    ensures rest - PairsTo(Without(g[id].dependents, id), id) == rest - PairsTo(g[id].dependents, id)
  {
    assert (id, id) !in rest;
    assert forall p :: p in PairsTo(g[id].dependents, id) <==>
      p in PairsTo(Without(g[id].dependents, id), id) || (p == (id, id) && id in g[id].dependents);
  }

  lemma DistinctPrefix(s: seq<Id>, i: nat)
    requires Distinct(s) && i < |s|
    ensures s[i] !in s[..i] && s[..i + 1] == s[..i] + [s[i]]
  {
  }

  lemma OnePairLess(all: set<(Id, Id)>, a: Id, s: seq<Id>, d: Id)
    requires (a, d) in all && d !in s
    ensures all - PairsWith(a, s + [d]) == all - PairsWith(a, s) - {(a, d)}
    ensures |all - PairsWith(a, s + [d])| == |all - PairsWith(a, s)| - 1
  {
    assert (a, d) in all - PairsWith(a, s);
    assert PairsWith(a, s + [d]) == PairsWith(a, s) + {(a, d)};
    assert all - PairsWith(a, s + [d]) == all - PairsWith(a, s) - {(a, d)};
  }

  lemma OnePairLessTo(all: set<(Id, Id)>, s: seq<Id>, d: Id, b: Id)
    requires (d, b) in all && d !in s
    ensures all - PairsTo(s + [d], b) == all - PairsTo(s, b) - {(d, b)}
    ensures |all - PairsTo(s + [d], b)| == |all - PairsTo(s, b)| - 1
  {
    assert (d, b) in all - PairsTo(s, b);
    assert PairsTo(s + [d], b) == PairsTo(s, b) + {(d, b)};
    assert all - PairsTo(s + [d], b) == all - PairsTo(s, b) - {(d, b)};
  }

  lemma OutgoingEdgesToDrop(g: Nodes, id: Id)
    requires Mirrored(g) && id in g
    ensures Edges(g) - PairsWith(id, []) == Edges(g)
    ensures Distinct(g[id].dependencies)
    ensures forall d :: d in g[id].dependencies ==> d in g && id in g[d].dependents && WellKept(g[d]) && (id, d) in Edges(g)
  {
    assert WellKept(g[id]);
    forall d | d in g[id].dependencies
      ensures d in g && id in g[d].dependents && WellKept(g[d]) && (id, d) in Edges(g)
    {
      assert Edge(g, id, d) && BackEdge(g, id, d);
    }
  }

  /** `h` is the graph after the first loop. */
  lemma IncomingEdgesToDrop(g: Nodes, h: Nodes, id: Id, rest: set<(Id, Id)>)
    requires Mirrored(g) && id in g && h.Keys == g.Keys
    requires forall a :: a in g ==> h[a] == if a in g[id].dependencies then DropDependent(g[a], id) else g[a]
    requires rest == Edges(g) - PairsWith(id, g[id].dependencies)
    ensures rest - PairsTo([], id) == rest
    ensures rest - PairsTo(h[id].dependents, id) == rest - PairsTo(g[id].dependents, id)
    ensures Distinct(h[id].dependents)
    ensures forall d :: d in h[id].dependents <==> d in g[id].dependents && d != id
    ensures forall d :: d in h[id].dependents ==>
      d in g && id in h[d].dependencies && Distinct(h[d].dependencies) && h[d].outDegree == |h[d].dependencies| && (d, id) in rest
  {
    RemainingDependents(g, id);
    assert h[id].dependents == Without(g[id].dependents, id);
    NoSelfEdgeLeft(g, id, rest);
    forall d | d in h[id].dependents
      ensures d in g && id in h[d].dependencies && Distinct(h[d].dependencies) && h[d].outDegree == |h[d].dependencies|
      ensures (d, id) in rest
    {
      assert BackEdge(g, d, id) && Edge(g, d, id) && WellKept(g[d]);
    }
  }

  /** Dropping an edge that is not there changes nothing. */
  lemma DroppingAnAbsentEdge(g: Nodes, id: Id, a: Id)
    requires Mirrored(g) && id in g && a in g && a != id
    ensures a !in g[id].dependencies ==> DropDependent(g[a], id) == g[a]
    ensures a !in g[id].dependents ==> DropDependency(g[a], id) == g[a]
    ensures a !in g[id].dependents ==> DropDependency(DropDependent(g[a], id), id) == DropDependent(g[a], id)
  {
    assert WellKept(g[a]);
    assert Edge(g, a, id) <==> BackEdge(g, a, id);
    assert Edge(g, id, a) <==> BackEdge(g, id, a);
    if a !in g[id].dependencies {
      WithoutAbsent(g[a].dependents, id);
    }
    if a !in g[id].dependents {
      WithoutAbsent(g[a].dependencies, id);
    }
  }

  lemma RemainingEdges(g: Nodes, id: Id)
    requires Mirrored(g) && id in g
    ensures Edges(WithoutNode(g, id)) == Edges(g) - PairsWith(id, g[id].dependencies) - PairsTo(g[id].dependents, id)
  {
    WithoutNodeEdges(g, id);
    forall e: (Id, Id)
      ensures e in Edges(WithoutNode(g, id)) <==>
              e in Edges(g) - PairsWith(id, g[id].dependencies) - PairsTo(g[id].dependents, id)
    {
      assert e in Edges(WithoutNode(g, id)) <==> Edge(WithoutNode(g, id), e.0, e.1);
      assert e in Edges(g) <==> Edge(g, e.0, e.1);
      assert Edge(g, e.0, id) <==> BackEdge(g, e.0, id);
    }
  }

  /** The two loops of RemoveNode together. */
  lemma RemovalLeavesWithoutNode(g: Nodes, id: Id, h: Nodes)
    requires Mirrored(g) && id in g && h.Keys == g.Keys
    requires forall a :: a in g ==>
      h[a] == var n := if a in g[id].dependencies then DropDependent(g[a], id) else g[a];
              if a in g[id].dependents && a != id then DropDependency(n, id) else n
    ensures h - {id} == WithoutNode(g, id) && Mirrored(h - {id})
    ensures Edges(h - {id}) == Edges(g) - PairsWith(id, g[id].dependencies) - PairsTo(g[id].dependents, id)
  {
    forall a | a in g && a != id
      ensures h[a] == DropDependency(DropDependent(g[a], id), id)
    {
      hide Mirrored, DropDependent, DropDependency;
      DroppingAnAbsentEdge(g, id, a);
    }
    assert h - {id} == WithoutNode(g, id) by {
      hide DropDependent, DropDependency;
    }
    WithoutNodeKeepsMirrored(g, id);
    RemainingEdges(g, id);
  }

  // ---------------------------------------------------------------------------------------------
  // The modules still to come in Kahn's algorithm
  // ---------------------------------------------------------------------------------------------

  /** The dependencies of `a` that are not among the modules already placed. */
  ghost function Waiting(g: Nodes, a: Id, placed: set<Id>): set<Id>
    requires a in g
  {
    set d | d in g[a].dependencies && d !in placed
  }

  lemma WaitingAtStart(g: Nodes, a: Id)
    requires a in g && Distinct(g[a].dependencies)
    ensures |Waiting(g, a, {})| == |g[a].dependencies|
  {
    DistinctSize(g[a].dependencies);
    assert Waiting(g, a, {}) == Elements(g[a].dependencies);
  }

  lemma AllWaitingAtStart(g: Nodes)
    requires Mirrored(g)
    ensures forall a :: a in g ==> g[a].outDegree == |Waiting(g, a, {})|
  {
    forall a | a in g
      ensures g[a].outDegree == |Waiting(g, a, {})|
    {
      assert WellKept(g[a]);
      WaitingAtStart(g, a);
    }
  }

  lemma WaitingAfterPlacing(g: Nodes, a: Id, placed: set<Id>, n: Id)
    requires a in g && n !in placed
    ensures |Waiting(g, a, placed + {n})| == |Waiting(g, a, placed)| - if n in g[a].dependencies then 1 else 0
  {
    if n in g[a].dependencies {
      assert Waiting(g, a, placed) == Waiting(g, a, placed + {n}) + {n};
    } else {
      assert Waiting(g, a, placed) == Waiting(g, a, placed + {n});
    }
  }

  /** Modules that all still wait for something unplaced go round in circles. */
  lemma UnplacedModulesHaveCycle(g: Nodes, placed: set<Id>)
    requires Mirrored(g)
    requires g.Keys - placed != {}
    requires forall a :: a in g.Keys - placed ==> Waiting(g, a, placed) != {}
    ensures !Acyclic(g)
  {
    var stuck := g.Keys - placed;
    forall a | a in stuck
      ensures DependsInto(g, a, stuck)
    {
      var d :| d in Waiting(g, a, placed);
      assert Edge(g, a, d) && BackEdge(g, a, d);
    }
    StuckSetHasCycle(g, stuck);
  }

  lemma PlacingKeepsOrder(g: Nodes, placed: set<Id>, result: seq<Id>, n: Id)
    requires DependenciesFirst(g, result) && Distinct(result) && Elements(result) == placed
    requires n in g && n !in placed && |Waiting(g, n, placed)| == 0
    ensures DependenciesFirst(g, result + [n]) && Distinct(result + [n]) && Elements(result + [n]) == placed + {n}
  {
    forall d | d in g[n].dependencies
      ensures d in result
    {
      assert d !in Waiting(g, n, placed);
    }
    assert forall i :: 0 <= i < |result| ==> result[i] in Elements(result);
    DependenciesFirstExtend(g, result, n);
  }

  /** When the queue has run dry: either every module is placed, in order, or there is a cycle. */
  lemma PlacedAll(g: Nodes, placed: set<Id>, result: seq<Id>)
    requires Mirrored(g)
    requires DependenciesFirst(g, result) && Distinct(result) && Elements(result) == placed
    requires forall a :: a in g && a !in placed ==> Waiting(g, a, placed) != {}
    ensures |result| == |g| ==> IsStartOrder(g, result) && Acyclic(g)
    ensures |result| != |g| ==> !Acyclic(g)
  {
    assert forall i :: 0 <= i < |result| ==> result[i] in Elements(result);
    assert placed <= g.Keys by {
      forall a | a in placed
        ensures a in g
      {
        assert a in result;
      }
    }
    DistinctSize(result);
    SubsetSize(placed, g.Keys);
    if |result| == |g| {
      assert g.Keys - placed == {};
      assert forall a :: a in result <==> a in Elements(result);
      DependenciesFirstIsStartOrder(g, result);
      OrderOfAllNodesShowsAcyclic(g, result);
    } else {
      UnplacedModulesHaveCycle(g, placed);
    }
  }

  /** What a topological sort promises. */
  ghost predicate IsStartOrder(g: Nodes, s: seq<Id>) {
    && Distinct(s)
    && (forall a :: a in s <==> a in g)
    && (forall a, b :: Edge(g, a, b) ==> Find(s, b) < Find(s, a))
  }

  lemma DependenciesFirstIsStartOrder(g: Nodes, s: seq<Id>)
    requires Distinct(s) && (forall a :: a in s <==> a in g) && DependenciesFirst(g, s)
    ensures IsStartOrder(g, s)
  {
    forall a, b | Edge(g, a, b)
      ensures Find(s, b) < Find(s, a)
    {
      var i := Find(s, a);
      assert b in s[..i];
    }
  }

  // ---------------------------------------------------------------------------------------------
  // The depth-first search
  // ---------------------------------------------------------------------------------------------

  /** The search has finished the modules in `finished`, in that order; the other visited modules are
      those it is still inside of. */
  ghost predicate Finished(g: Nodes, visited: set<Id>, onStack: set<Id>, finished: seq<Id>) {
    DependenciesFirst(g, finished) && Elements(finished) == visited - onStack
  }

  /** The modules the search is inside of: a walk that ends where the search is. */
  ghost predicate IsSearchPath(g: Nodes, path: seq<Id>, onStack: set<Id>) {
    Distinct(path) && Elements(path) == onStack && (path == [] || IsWalk(g, path))
  }

  lemma EnterModule(g: Nodes, path: seq<Id>, visited: set<Id>, onStack: set<Id>, id: Id)
    requires IsSearchPath(g, path, onStack) && id !in visited && onStack <= visited
    requires path != [] ==> Edge(g, path[|path| - 1], id)
    ensures IsSearchPath(g, path + [id], onStack + {id})
    ensures forall finished :: Finished(g, visited, onStack, finished) ==> Finished(g, visited + {id}, onStack + {id}, finished)
  {
    assert visited + {id} - (onStack + {id}) == visited - onStack;
    var here := path + [id];
    assert forall x :: x in path ==> x in Elements(path);
    forall i | 0 <= i < |here| - 1
      ensures Edge(g, here[i], here[i + 1])
    {
      assert i < |path| - 1 ==> Edge(g, path[i], path[i + 1]);
    }
  }

  lemma LeaveModule(g: Nodes, visited: set<Id>, onStack: set<Id>, finished: seq<Id>, id: Id)
    requires Finished(g, visited, onStack + {id}, finished)
    requires id in visited && id !in onStack && id in g
    requires Elements(g[id].dependencies) <= visited - (onStack + {id})
    ensures Finished(g, visited, onStack, finished + [id])
  {
    assert Elements(finished + [id]) == Elements(finished) + {id} == visited - onStack;
    forall d | d in g[id].dependencies
      ensures d in finished
    {
      assert d in Elements(g[id].dependencies);
    }
    DependenciesFirstExtend(g, finished, id);
  }

  /** A dependency the search is still inside of closes a cycle. */
  lemma DependencyOnPathClosesCycle(g: Nodes, path: seq<Id>, onStack: set<Id>, d: Id)
    requires IsSearchPath(g, path, onStack) && d in onStack
    requires path != [] && Edge(g, path[|path| - 1], d)
    ensures IsSimpleCycle(g, path[Find(path, d)..])
    ensures !Acyclic(g)
  {
    assert d in Elements(path);
    PathTailIsSimpleCycle(g, path, Find(path, d));
    SimpleCycleIsCycle(g, path[Find(path, d)..]);
  }

  lemma AllFinished(g: Nodes, visited: set<Id>, finished: seq<Id>)
    requires Finished(g, visited, {}, finished) && g.Keys <= visited
    ensures Acyclic(g)
  {
    assert forall a :: a in g ==> a in Elements(finished);
    OrderOfAllNodesShowsAcyclic(g, finished);
  }

  lemma VisitedShrinksRest(all: set<Id>, visited: set<Id>, visited': set<Id>, id: Id)
    requires id in all && id !in visited && visited + {id} <= visited'
    ensures |all - visited'| < |all - visited|
  {
    SubsetSize(all - visited', all - visited - {id});
  }

  /** A dependency that is still on the search path closes a cycle through the rest of that path. */
  lemma PathTailIsSimpleCycle(g: Nodes, path: seq<Id>, start: nat)
    requires IsWalk(g, path) && Distinct(path) && start < |path| && Edge(g, path[|path| - 1], path[start])
    ensures IsSimpleCycle(g, path[start..])
  {
    forall k | 0 <= k < |path[start..]| - 1
      ensures Edge(g, path[start..][k], path[start..][k + 1])
    {
      assert Edge(g, path[start + k], path[start + k + 1]);
    }
  }

  ghost predicate ReportsSimpleCycle(g: Nodes, c: DependencyCycle) {
    && IsSimpleCycle(g, c.moduleIds)
    && |c.symbolicNames| == |c.moduleIds|
    && forall i :: 0 <= i < |c.moduleIds| ==> c.moduleIds[i] in g && c.symbolicNames[i] == g[c.moduleIds[i]].symbolicName
  }

  ghost predicate ReportsSimpleCycles(g: Nodes, cycles: seq<DependencyCycle>) {
    forall c :: c in cycles ==> ReportsSimpleCycle(g, c)
  }

  lemma ReportedCycleIsOne(g: Nodes, c: DependencyCycle)
    requires ReportsSimpleCycle(g, c)
    ensures !Acyclic(g)
  {
    SimpleCycleIsCycle(g, c.moduleIds);
  }

  lemma PopLast(stack: seq<Id>)
    requires stack != [] && Distinct(stack)
    ensures Distinct(stack[..|stack| - 1])
    ensures Elements(stack) == Elements(stack[..|stack| - 1]) + {stack[|stack| - 1]}
    ensures stack[|stack| - 1] !in Elements(stack[..|stack| - 1])
  {
    assert stack == stack[..|stack| - 1] + [stack[|stack| - 1]];
  }

  // ---------------------------------------------------------------------------------------------
  // Guarded insertion
  // ---------------------------------------------------------------------------------------------

  /** The edge is there already, or there is no way back from its target to its source. */
  ghost predicate SafeEdge(g: Nodes, a: Id, b: Id) {
    a in g && b in g && (Edge(g, a, b) || !Reaches(g, b, a))
  }

  /** The graph after a sequence of insertions, each made only when CanAddEdge allows it. */
  ghost function GuardedInsertions(g: Nodes, edges: seq<(Id, Id)>): Nodes {
    if edges == [] then g
    else
      var h, e := GuardedInsertions(g, edges[..|edges| - 1]), edges[|edges| - 1];
      if SafeEdge(h, e.0, e.1) then WithEdge(h, e.0, e.1) else h
  }

  /** Whatever is asked for, in whatever order: the graph stays acyclic, it holds only edges that were
      there or were asked for, and a request is refused only if it would close a cycle. */
  lemma {:induction false} GuardedInsertionsStayAcyclic(g: Nodes, edges: seq<(Id, Id)>)
    requires Acyclic(g)
    ensures Acyclic(GuardedInsertions(g, edges))
    ensures GuardedInsertions(g, edges).Keys == g.Keys
    ensures forall a: Id, b: Id :: Edge(GuardedInsertions(g, edges), a, b) ==> Edge(g, a, b) || (a, b) in edges
    ensures edges != [] ==>
      var h, e := GuardedInsertions(g, edges[..|edges| - 1]), edges[|edges| - 1];
      e.0 in g && e.1 in g ==>
        (Edge(GuardedInsertions(g, edges), e.0, e.1) <==> Acyclic(WithEdge(h, e.0, e.1)))
    decreases |edges|
  {
    if edges != [] {
      var h, e := GuardedInsertions(g, edges[..|edges| - 1]), edges[|edges| - 1];
      GuardedInsertionsStayAcyclic(g, edges[..|edges| - 1]);
      if e.0 in h && e.1 in h {
        WithEdgeAddsOneEdge(h, e.0, e.1);
        NewEdgeKeepsAcyclic(h, WithEdge(h, e.0, e.1), e.0, e.1);
      }
      assert edges == edges[..|edges| - 1] + [e];
    }
  }

  // ---------------------------------------------------------------------------------------------
  // Iteration over the node map
  // ---------------------------------------------------------------------------------------------

  lemma {:induction false} LeastExists(ids: set<Id>)
    requires ids != {}
    ensures exists least :: IsLeast(ids, least)
    decreases |ids|
  {
    var a :| a in ids;
    if ids == {a} {
      assert IsLeast(ids, a);
    } else {
      LeastExists(ids - {a});
      var b :| IsLeast(ids - {a}, b);
      assert forall c :: c in ids ==> c == a || c in ids - {a};
      assert IsLeast(ids, if a < b then a else b);
    }
  }

  predicate IsLeast(ids: set<Id>, least: Id) {
    least in ids && forall a :: a in ids ==> least <= a
  }

  /** The keys in the order in which an ordered map is walked. */
  method AscendingIds(g: Nodes) returns (ids: seq<Id>)
    ensures forall i, j :: 0 <= i < j < |ids| ==> ids[i] < ids[j]
    ensures forall a :: a in ids <==> a in g
  {
    ids := [];
    var rest := g.Keys;
    while rest != {}
      invariant forall i, j :: 0 <= i < j < |ids| ==> ids[i] < ids[j]
      invariant forall a :: a in g <==> a in ids || a in rest
      invariant forall a, b :: a in ids && b in rest ==> a < b
      decreases |rest|
    {
      LeastExists(rest);
      var a :| IsLeast(rest, a);
      assert forall i :: 0 <= i < |ids| ==> ids[i] in ids && ids[i] < a;
      ids, rest := ids + [a], rest - {a};
    }
  }

  // ---------------------------------------------------------------------------------------------
  // The graph
  // ---------------------------------------------------------------------------------------------

  class DependencyGraph {
    var nodes: Nodes
    var edgeCount: int

    /** The invariant of the class: mirrored lists, and a counter that counts the edges. */
    ghost predicate Valid()
      reads this
    {
      Mirrored(nodes) && edgeCount == |Edges(nodes)|
    }

    constructor ()
      ensures Valid() && nodes == map[]
    {
      nodes, edgeCount := map[], 0;
      new;
      assert Edges(nodes) == {};
    }

    /** A copy of a graph, as the resolver makes one to try a module out. */
    constructor Copy(other: DependencyGraph)
      requires other.Valid()
      ensures Valid() && nodes == other.nodes
    {
      nodes, edgeCount := other.nodes, other.edgeCount;
    }

    method Clear()
      modifies this
      ensures Valid() && nodes == map[]
    {
      nodes, edgeCount := map[], 0;
      assert Edges(nodes) == {};
    }

    method AddNode(id: Id, symbolicName: string)
      requires Valid()
      modifies this
      ensures Valid()
      ensures nodes == old(nodes)[id := if id in old(nodes) then old(nodes)[id].(symbolicName := symbolicName)
                                        else Node(symbolicName, [], [], 0, 0)]
      ensures Edges(nodes) == old(Edges(nodes))
    {
      if id in nodes {
        nodes := nodes[id := nodes[id].(symbolicName := symbolicName)];
      } else {
        nodes := nodes[id := Node(symbolicName, [], [], 0, 0)];
      }
      NamesDoNotMatter(old(nodes), nodes, id);
    }

    method AddEdge(a: Id, b: Id) returns (r: Outcome<GraphError>)
      requires Valid()
      modifies this
      ensures Valid()
      ensures r == if a !in old(nodes) then Fail(SourceNotFound) else if b !in old(nodes) then Fail(TargetNotFound) else Pass
      ensures r.Pass? ==> nodes == WithEdge(old(nodes), a, b) && Edges(nodes) == old(Edges(nodes)) + {(a, b)}
      ensures r.Fail? ==> nodes == old(nodes) && edgeCount == old(edgeCount)
    {
      hide Mirrored, Edges, HasOneMoreEdge;
      if a !in nodes {
        return Fail(SourceNotFound);
      }
      if b !in nodes {
        return Fail(TargetNotFound);
      }
      WithEdgeKeepsMirrored(nodes, a, b);
      WithEdgeAddsOneEdge(nodes, a, b);
      if Find(nodes[a].dependencies, b) < |nodes[a].dependencies| {
        return Pass;
      }
      nodes := nodes[a := nodes[a].(dependencies := nodes[a].dependencies + [b], outDegree := nodes[a].outDegree + 1)];
      nodes := nodes[b := nodes[b].(dependents := nodes[b].dependents + [a], inDegree := nodes[b].inDegree + 1)];
      edgeCount := edgeCount + 1;
      return Pass;
    }

    method RemoveNode(id: Id)
      requires Valid()
      modifies this
      ensures Valid()
      ensures nodes == WithoutNode(old(nodes), id)
      ensures id !in old(nodes) ==> nodes == old(nodes)
    {
      ghost var g := nodes;
      if id !in nodes {
        UnknownNodeIsNotListed(g, id);
        return;
      }
      DropOutgoingEdges(id);
      DropIncomingEdges(id, g);
      RemovalLeavesWithoutNode(g, id, nodes);
      nodes := nodes - {id};
    }

    /** The first loop of RemoveNode: the modules that `id` needs forget it. */
    method DropOutgoingEdges(id: Id)
      requires Mirrored(nodes) && edgeCount == |Edges(nodes)| && id in nodes
      modifies this
      ensures nodes.Keys == old(nodes.Keys)
      ensures forall a :: a in nodes ==>
        nodes[a] == if a in old(nodes)[id].dependencies then DropDependent(old(nodes)[a], id) else old(nodes)[a]
      ensures edgeCount == |old(Edges(nodes)) - PairsWith(id, old(nodes)[id].dependencies)|
    {
      hide *;
      ghost var g := nodes;
      var dependencies := nodes[id].dependencies;
      OutgoingEdgesToDrop(g, id);
      for i := 0 to |dependencies|
        invariant nodes.Keys == g.Keys
        invariant forall a :: a in g ==> nodes[a] == if a in dependencies[..i] then DropDependent(g[a], id) else g[a]
        invariant edgeCount == |Edges(g) - PairsWith(id, dependencies[..i])|
      {
        var d := dependencies[i];
        DistinctPrefix(dependencies, i);
        OnePairLess(Edges(g), id, dependencies[..i], d);
        ForgetDependent(d, id);
      }
      assert dependencies[..|dependencies|] == dependencies;
    }

    /** Module `d` loses `id` from its dependents, and the graph that edge. */
    method ForgetDependent(d: Id, id: Id)
      requires d in nodes && WellKept(nodes[d]) && id in nodes[d].dependents
      modifies this
      ensures nodes == old(nodes)[d := DropDependent(old(nodes)[d], id)]
      ensures edgeCount == old(edgeCount) - 1
    {
      if d in nodes {
        var n := nodes[d];
        var pos := Find(n.dependents, id);
        if pos < |n.dependents| {
          EraseDependent(n, pos, id);
          nodes := nodes[d := n.(dependents := n.dependents[..pos] + n.dependents[pos + 1..], inDegree := n.inDegree - 1)];
          edgeCount := edgeCount - 1;
        }
      }
    }

    /** Module `d` loses `id` from its dependencies, and the graph that edge. */
    method ForgetDependency(d: Id, id: Id)
      requires d in nodes && Distinct(nodes[d].dependencies) && id in nodes[d].dependencies
      requires nodes[d].outDegree == |nodes[d].dependencies|
      modifies this
      ensures nodes == old(nodes)[d := DropDependency(old(nodes)[d], id)]
      ensures edgeCount == old(edgeCount) - 1
    {
      if d in nodes {
        var n := nodes[d];
        var pos := Find(n.dependencies, id);
        if pos < |n.dependencies| {
          EraseIsWithout(n.dependencies, pos);
          nodes := nodes[d := n.(dependencies := n.dependencies[..pos] + n.dependencies[pos + 1..], outDegree := n.outDegree - 1)];
          edgeCount := edgeCount - 1;
        }
      }
    }

    /** The second loop of RemoveNode: the modules that need `id` forget it. */
    method DropIncomingEdges(id: Id, ghost g: Nodes)
      requires Mirrored(g) && id in g && nodes.Keys == g.Keys
      requires forall a :: a in g ==> nodes[a] == if a in g[id].dependencies then DropDependent(g[a], id) else g[a]
      requires edgeCount == |Edges(g) - PairsWith(id, g[id].dependencies)|
      modifies this
      ensures nodes.Keys == g.Keys
      ensures forall a :: a in g ==>
        nodes[a] == if a in g[id].dependents && a != id then DropDependency(old(nodes)[a], id) else old(nodes)[a]
      ensures edgeCount == |Edges(g) - PairsWith(id, g[id].dependencies) - PairsTo(g[id].dependents, id)|
    {
      hide *;
      ghost var h, rest := nodes, Edges(g) - PairsWith(id, g[id].dependencies);
      var dependents := nodes[id].dependents;
      IncomingEdgesToDrop(g, h, id, rest);
      for j := 0 to |dependents|
        invariant nodes.Keys == g.Keys
        invariant forall a :: a in g ==> nodes[a] == if a in dependents[..j] then DropDependency(h[a], id) else h[a]
        invariant edgeCount == |rest - PairsTo(dependents[..j], id)|
      {
        var d := dependents[j];
        DistinctPrefix(dependents, j);
        OnePairLessTo(rest, dependents[..j], d, id);
        ForgetDependency(d, id);
      }
      assert dependents[..|dependents|] == dependents;
    }

    method DfsHasCycle(id: Id, visited: set<Id>, onStack: set<Id>, ghost path: seq<Id>, ghost finished: seq<Id>)
      returns (found: bool, visited': set<Id>, onStack': set<Id>, ghost finished': seq<Id>)
      requires Mirrored(nodes)
      requires id in nodes && id !in visited && onStack <= visited <= nodes.Keys
      requires Finished(nodes, visited, onStack, finished)
      requires IsSearchPath(nodes, path, onStack)
      requires path != [] ==> Edge(nodes, path[|path| - 1], id)
      ensures found ==> !Acyclic(nodes)
      ensures !found ==> visited + {id} <= visited' <= nodes.Keys && onStack' == onStack
      ensures !found ==> Finished(nodes, visited', onStack', finished')
      decreases |nodes.Keys - visited|
    {
      hide Finished, IsSearchPath, WellKept, Acyclic, ReportsSimpleCycles;
      visited', onStack', finished' := visited + {id}, onStack + {id}, finished;
      ghost var here := path + [id];
      EnterModule(nodes, path, visited, onStack, id);

      var dependencies := nodes[id].dependencies;
      for i := 0 to |dependencies|
        invariant visited + {id} <= visited' <= nodes.Keys && onStack' == onStack + {id}
        invariant Finished(nodes, visited', onStack', finished')
        invariant Elements(dependencies[..i]) <= visited' - onStack'
      {
        var d := dependencies[i];
        assert Edge(nodes, id, d) && BackEdge(nodes, id, d);
        assert Elements(dependencies[..i + 1]) == Elements(dependencies[..i]) + {d};
        if d !in visited' {
          VisitedShrinksRest(nodes.Keys, visited, visited', id);
          found, visited', onStack', finished' := DfsHasCycle(d, visited', onStack', here, finished');
          if found {
            return;
          }
        } else if d in onStack' {
          DependencyOnPathClosesCycle(nodes, here, onStack', d);
          found := true;
          return;
        }
      }
      assert dependencies[..|dependencies|] == dependencies;

      onStack' := onStack' - {id};
      assert onStack' == onStack;
      LeaveModule(nodes, visited', onStack, finished', id);
      finished' := finished' + [id];
      found := false;
    }

    method HasCycle() returns (found: bool)
      requires Valid()
      ensures found <==> !Acyclic(nodes)
    {
      var visited, onStack: set<Id> := {}, {};
      ghost var finished: seq<Id> := [];
      var ids := AscendingIds(nodes);
      for i := 0 to |ids|
        invariant visited <= nodes.Keys && onStack == {}
        invariant Finished(nodes, visited, onStack, finished)
        invariant forall k :: 0 <= k < i ==> ids[k] in visited
      {
        if ids[i] !in visited {
          found, visited, onStack, finished := DfsHasCycle(ids[i], visited, onStack, [], finished);
          if found {
            return true;
          }
        }
      }
      AllFinished(nodes, visited, finished);
      found := false;
    }

    method DfsFindCycles(id: Id, visited: set<Id>, onStack: set<Id>, path: seq<Id>, cycles: seq<DependencyCycle>,
                         ghost finished: seq<Id>)
      returns (visited': set<Id>, onStack': set<Id>, path': seq<Id>, cycles': seq<DependencyCycle>, ghost finished': seq<Id>)
      requires Mirrored(nodes)
      requires id in nodes && id !in visited && onStack <= visited <= nodes.Keys
      requires cycles == [] ==> Finished(nodes, visited, onStack, finished)
      requires IsSearchPath(nodes, path, onStack)
      requires path != [] ==> Edge(nodes, path[|path| - 1], id)
      requires ReportsSimpleCycles(nodes, cycles)
      ensures visited + {id} <= visited' <= nodes.Keys && onStack' == onStack && path' == path
      ensures cycles <= cycles' && ReportsSimpleCycles(nodes, cycles')
      ensures cycles' == [] ==> Finished(nodes, visited', onStack', finished')
      decreases |nodes.Keys - visited|
    {
      hide Finished, IsSearchPath, WellKept, Acyclic, ReportsSimpleCycles;
      visited', onStack', path' := visited + {id}, onStack + {id}, path + [id];
      cycles', finished' := cycles, finished;
      ghost var here := path';
      EnterModule(nodes, path, visited, onStack, id);

      var dependencies := nodes[id].dependencies;
      for i := 0 to |dependencies|
        invariant visited + {id} <= visited' <= nodes.Keys && onStack' == onStack + {id} && path' == here
        invariant cycles <= cycles' && ReportsSimpleCycles(nodes, cycles')
        invariant cycles' == [] ==> Finished(nodes, visited', onStack', finished')
        invariant cycles' == [] ==> Elements(dependencies[..i]) <= visited' - onStack'
      {
        var d := dependencies[i];
        assert Edge(nodes, id, d) && BackEdge(nodes, id, d);
        assert Elements(dependencies[..i + 1]) == Elements(dependencies[..i]) + {d};
        if d !in visited' {
          VisitedShrinksRest(nodes.Keys, visited, visited', id);
          visited', onStack', path', cycles', finished' := DfsFindCycles(d, visited', onStack', path', cycles', finished');
        } else if d in onStack' {
          cycles' := RecordCycle(d, onStack', path', cycles');
        }
      }
      assert dependencies[..|dependencies|] == dependencies;

      path' := path'[..|path'| - 1];
      onStack' := onStack' - {id};
      assert onStack' == onStack;
      if cycles' == [] {
        LeaveModule(nodes, visited', onStack, finished', id);
        finished' := finished' + [id];
      }
    }

    /** The part of the search path from `d` on is a cycle: report it with its modules' names. */
    method RecordCycle(d: Id, ghost onStack: set<Id>, path: seq<Id>, cycles: seq<DependencyCycle>)
      returns (cycles': seq<DependencyCycle>)
      requires IsSearchPath(nodes, path, onStack) && d in onStack
      requires path != [] && Edge(nodes, path[|path| - 1], d)
      requires Elements(path) <= nodes.Keys && ReportsSimpleCycles(nodes, cycles)
      ensures |cycles'| == |cycles| + 1 && cycles <= cycles' && ReportsSimpleCycles(nodes, cycles')
    {
      DependencyOnPathClosesCycle(nodes, path, onStack, d);
      hide IsSearchPath, IsSimpleCycle;
      var start := Find(path, d);
      var cycle := DependencyCycle([], []);
      for i := start to |path|
        invariant cycle.moduleIds == path[start..i] && |cycle.symbolicNames| == i - start
        invariant forall k :: 0 <= k < i - start ==> path[start + k] in nodes &&
                                                     cycle.symbolicNames[k] == nodes[path[start + k]].symbolicName
      {
        assert path[i] in Elements(path);
        cycle := DependencyCycle(cycle.moduleIds + [path[i]], cycle.symbolicNames + [nodes[path[i]].symbolicName]);
      }
      assert path[start..|path|] == path[start..];
      forall k | 0 <= k < |cycle.moduleIds|
        ensures cycle.moduleIds[k] in nodes && cycle.symbolicNames[k] == nodes[cycle.moduleIds[k]].symbolicName
      {
        assert cycle.moduleIds[k] == path[start + k];
      }
      assert ReportsSimpleCycle(nodes, cycle);
      cycles' := cycles + [cycle];
    }

    method DetectCycles() returns (cycles: seq<DependencyCycle>)
      requires Valid()
      ensures ReportsSimpleCycles(nodes, cycles)
      ensures cycles == [] <==> Acyclic(nodes)
    {
      var visited, onStack: set<Id> := {}, {};
      var path: seq<Id> := [];
      ghost var finished: seq<Id> := [];
      cycles := [];
      var ids := AscendingIds(nodes);
      for i := 0 to |ids|
        invariant visited <= nodes.Keys && onStack == {} && path == []
        invariant ReportsSimpleCycles(nodes, cycles)
        invariant cycles == [] ==> Finished(nodes, visited, onStack, finished)
        invariant forall k :: 0 <= k < i ==> ids[k] in visited
      {
        if ids[i] !in visited {
          visited, onStack, path, cycles, finished := DfsFindCycles(ids[i], visited, onStack, path, cycles, finished);
        }
      }
      if cycles == [] {
        AllFinished(nodes, visited, finished);
      } else {
        ReportedCycleIsOne(nodes, cycles[0]);
      }
    }

    method TopologicalSort() returns (r: Result<seq<Id>, GraphError>)
      requires Valid()
      ensures r.Success? <==> Acyclic(nodes)
      ensures r.Success? ==> IsStartOrder(nodes, r.value)
      ensures r.Failure? ==> r.error.ContainsCycles? && r.error.cycles != [] &&
                             ReportsSimpleCycles(nodes, r.error.cycles)
    {
      var outDegrees, queue := ModulesWithoutDependencies();
      var result: seq<Id> := [];
      ghost var placed: set<Id> := {};
      while queue != []
        invariant outDegrees.Keys == nodes.Keys
        invariant Distinct(queue) && Distinct(result)
        invariant placed == Elements(result)
        invariant forall a :: a in queue ==> a !in placed
        invariant forall a :: a in nodes ==> outDegrees[a] == |Waiting(nodes, a, placed)|
        invariant forall a :: a in queue || a in placed <==> a in nodes && outDegrees[a] == 0
        invariant DependenciesFirst(nodes, result)
        decreases nodes.Keys - placed
      {
        var n := queue[|queue| - 1];
        queue := queue[..|queue| - 1];
        PlacingKeepsOrder(nodes, placed, result, n);
        result := result + [n];
        queue, outDegrees := PlaceNode(n, queue, outDegrees, placed);
        placed := placed + {n};
      }

      PlacedAll(nodes, placed, result);
      if |result| != |nodes| {
        var cycles := DetectCycles();
        return Failure(ContainsCycles(cycles));
      }
      return Success(result);
    }

    /** The out-degrees to count down, and the modules that need nothing. */
    method ModulesWithoutDependencies() returns (outDegrees: map<Id, int>, queue: seq<Id>)
      requires Mirrored(nodes)
      ensures outDegrees.Keys == nodes.Keys
      ensures forall a :: a in nodes ==> outDegrees[a] == |Waiting(nodes, a, {})|
      ensures Distinct(queue)
      ensures forall a :: a in queue <==> a in nodes && outDegrees[a] == 0
    {
      hide Mirrored, Waiting;
      AllWaitingAtStart(nodes);
      var ids := AscendingIds(nodes);
      outDegrees, queue := map[], [];
      for i := 0 to |ids|
        invariant outDegrees.Keys == Elements(ids[..i])
        invariant forall a :: a in outDegrees ==> outDegrees[a] == nodes[a].outDegree
      {
        assert Elements(ids[..i + 1]) == Elements(ids[..i]) + {ids[i]};
        outDegrees := outDegrees[ids[i] := nodes[ids[i]].outDegree];
      }
      assert outDegrees.Keys == nodes.Keys;
      for i := 0 to |ids|
        invariant Distinct(queue)
        invariant forall a :: a in queue <==> a in ids[..i] && outDegrees[a] == 0
      {
        if outDegrees[ids[i]] == 0 {
          queue := queue + [ids[i]];
        }
      }
    }

    /** One round of Kahn's algorithm: module `n` is placed, the modules that need it wait for one less. */
    method PlaceNode(n: Id, queue: seq<Id>, outDegrees: map<Id, int>, ghost placed: set<Id>)
      returns (queue': seq<Id>, outDegrees': map<Id, int>)
      requires Mirrored(nodes)
      requires n in nodes && n !in placed && n !in queue && outDegrees.Keys == nodes.Keys
      requires Distinct(queue) && outDegrees[n] == 0
      requires forall a :: a in nodes ==> outDegrees[a] == |Waiting(nodes, a, placed)|
      requires forall a :: a in queue || a in placed || a == n <==> a in nodes && outDegrees[a] == 0
      requires forall a :: a in queue ==> a !in placed
      ensures outDegrees'.Keys == nodes.Keys
      ensures Distinct(queue')
      ensures forall a :: a in queue' ==> a !in placed && a != n
      ensures forall a :: a in nodes ==> outDegrees'[a] == |Waiting(nodes, a, placed + {n})|
      ensures forall a :: a in queue' || a in placed || a == n <==> a in nodes && outDegrees'[a] == 0
    {
      queue', outDegrees' := queue, outDegrees;
      var dependents := nodes[n].dependents;
      forall a | a in nodes
        ensures |Waiting(nodes, a, placed + {n})| == outDegrees[a] - if a in dependents then 1 else 0
      {
        WaitingAfterPlacing(nodes, a, placed, n);
        assert Edge(nodes, a, n) <==> BackEdge(nodes, a, n);
      }
      for i := 0 to |dependents|
        invariant outDegrees'.Keys == nodes.Keys
        invariant forall a :: a in nodes ==> outDegrees'[a] == outDegrees[a] - if a in dependents[..i] then 1 else 0
        invariant Distinct(queue')
        invariant forall a :: a in queue' || a in placed || a == n <==> a in nodes && outDegrees'[a] == 0
        invariant forall a :: a in queue' ==> a !in placed && a != n
      {
        var d := dependents[i];
        assert d !in dependents[..i] && dependents[..i + 1] == dependents[..i] + [d];
        assert BackEdge(nodes, d, n) && Edge(nodes, d, n);
        assert n in Waiting(nodes, d, placed);
        outDegrees' := outDegrees'[d := outDegrees'[d] - 1];
        if outDegrees'[d] == 0 {
          queue' := queue' + [d];
        }
      }
      assert dependents[..|dependents|] == dependents;
    }

    method CanAddEdge(a: Id, b: Id) returns (safe: bool)
      requires Valid()
      ensures safe <==> SafeEdge(nodes, a, b)
      ensures a in nodes && b in nodes && Acyclic(nodes) ==> (safe <==> Acyclic(WithEdge(nodes, a, b)))
    {
      if a !in nodes || b !in nodes {
        return false;
      }
      WithEdgeAddsOneEdge(nodes, a, b);
      if Acyclic(nodes) {
        NewEdgeKeepsAcyclic(nodes, WithEdge(nodes, a, b), a, b);
      }
      if Find(nodes[a].dependencies, b) < |nodes[a].dependencies| {
        return true;
      }

      var visited, stack := {b}, [b];
      ghost var expanded: set<Id> := {};
      ReachesItself(nodes, b);
      while stack != []
        invariant visited <= nodes.Keys && b in visited
        invariant visited == expanded + Elements(stack) && Distinct(stack) && expanded !! Elements(stack)
        invariant forall x :: x in visited ==> Reaches(nodes, b, x)
        invariant a !in expanded
        invariant forall x, y :: x in expanded && Edge(nodes, x, y) ==> y in visited
        decreases nodes.Keys - expanded
      {
        var current := stack[|stack| - 1];
        PopLast(stack);
        stack := stack[..|stack| - 1];
        if current == a {
          return false;
        }
        expanded := expanded + {current};
        visited, stack := PushDependencies(b, current, visited, stack, expanded);
      }
      if Reaches(nodes, b, a) {
        var w :| WalkBetween(nodes, b, a, w);
        WalkStaysInside(nodes, visited, w);
        assert false;
      }
      return true;
    }

    /** The dependencies of `current` that the search from `start` has not met yet go onto its stack. */
    method PushDependencies(ghost start: Id, current: Id, visited: set<Id>, stack: seq<Id>, ghost expanded: set<Id>)
      returns (visited': set<Id>, stack': seq<Id>)
      requires Mirrored(nodes) && current in nodes && visited <= nodes.Keys
      requires visited == expanded + Elements(stack) && Distinct(stack) && expanded !! Elements(stack)
      requires Reaches(nodes, start, current) && forall x :: x in visited ==> Reaches(nodes, start, x)
      ensures visited <= visited' <= nodes.Keys
      ensures visited' == expanded + Elements(stack') && Distinct(stack') && expanded !! Elements(stack')
      ensures forall x :: x in visited' ==> Reaches(nodes, start, x)
      ensures forall y :: Edge(nodes, current, y) ==> y in visited'
    {
      visited', stack' := visited, stack;
      var dependencies := nodes[current].dependencies;
      for i := 0 to |dependencies|
        invariant visited <= visited' <= nodes.Keys
        invariant visited' == expanded + Elements(stack') && Distinct(stack') && expanded !! Elements(stack')
        invariant forall x :: x in visited' ==> Reaches(nodes, start, x)
        invariant forall k :: 0 <= k < i ==> dependencies[k] in visited'
      {
        var d := dependencies[i];
        assert Edge(nodes, current, d) && BackEdge(nodes, current, d);
        if d !in visited' {
          ReachesThenEdge(nodes, start, current, d);
          assert forall k :: 0 <= k < |stack'| ==> stack'[k] in Elements(stack');
          visited' := visited' + {d};
          stack' := stack' + [d];
        }
      }
    }
  }
}
