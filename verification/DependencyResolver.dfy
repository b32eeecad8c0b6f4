/** Start order, stop order and trial installation of modules
    (workspace/src/framework/impl/module/dependency_resolver.cpp).  What the resolver asks of the
    module registry arrives as arguments: the registered modules, and for every dependency of a
    manifest the module that the registry finds compatible with it. */
module DependencyResolvers {
  import opened Wrappers
  import opened Graphs
  import opened DependencyGraphs

  datatype Dependency = Dependency(optional: bool, found: Option<Id>)

  /** `dependencies` is `None` when the manifest does not parse. */
  datatype Module = Module(id: Id, symbolicName: string, dependencies: Option<seq<Dependency>>)

  predicate NeedsHard(deps: seq<Dependency>, b: Id) {
    Dependency(false, Some(b)) in deps
  }

  /** The hard dependencies of a module: those its manifest does not call optional, where found. */
  predicate Needs(m: Module, b: Id) {
    m.dependencies.Some? && NeedsHard(m.dependencies.value, b)
  }

  /** The edges of `h` are those of `g` and one from `a` to every hard dependency in `deps`. */
  ghost predicate HasEdgesTo(g: Nodes, h: Nodes, a: Id, deps: seq<Dependency>) {
    forall x, y :: Edge(h, x, y) <==> Edge(g, x, y) || (x == a && NeedsHard(deps, y))
  }

  lemma OneMoreDependency(g: Nodes, h: Nodes, h': Nodes, a: Id, deps: seq<Dependency>, b: Id)
    requires HasEdgesTo(g, h, a, deps) && HasOneMoreEdge(h, h', a, b)
    ensures HasEdgesTo(g, h', a, deps + [Dependency(false, Some(b))])
  {
    var more := deps + [Dependency(false, Some(b))];
    forall x, y
      ensures Edge(h', x, y) <==> Edge(g, x, y) || (x == a && NeedsHard(more, y))
    {
      assert NeedsHard(more, y) <==> NeedsHard(deps, y) || y == b;
      assert Edge(h', x, y) <==> Edge(h, x, y) || (x == a && y == b);
    }
  }

  lemma NoFurtherDependency(g: Nodes, h: Nodes, a: Id, deps: seq<Dependency>, d: Dependency)
    requires HasEdgesTo(g, h, a, deps) && (d.optional || d.found.None?)
    ensures HasEdgesTo(g, h, a, deps + [d])
  {
    forall x, y
      ensures Edge(h, x, y) <==> Edge(g, x, y) || (x == a && NeedsHard(deps + [d], y))
    {
      assert NeedsHard(deps + [d], y) <==> NeedsHard(deps, y);
    }
  }

  /** A dependency that closes a way back makes the graph cyclic, whatever else is added. */
  lemma WayBackMakesCyclic(g: Nodes, h: Nodes, full: Nodes, a: Id, prefix: seq<Dependency>, deps: seq<Dependency>, b: Id)
    requires HasEdgesTo(g, h, a, prefix) && HasEdgesTo(g, full, a, deps)
    requires prefix <= deps && NeedsHard(deps, b) && Reaches(h, b, a)
    ensures !Acyclic(full)
  {
    assert SubgraphOf(h, full) by {
      forall x, y | Edge(h, x, y)
        ensures Edge(full, x, y)
      {
        assert NeedsHard(prefix, y) ==> NeedsHard(deps, y);
      }
    }
    var w :| WalkBetween(h, b, a, w);
    SubgraphKeepsWalks(h, full, w);
    assert WalkBetween(full, b, a, w);
    assert Edge(full, a, b);
    BackEdgeClosesCycle(full, b, a);
  }

  /** The graph with the hard dependencies of module `a` added, where they are known modules. */
  ghost function WithDependencies(g: Nodes, a: Id, deps: seq<Dependency>): Nodes
    requires a in g
    ensures WithDependencies(g, a, deps).Keys == g.Keys
  {
    if deps == [] then g
    else
      var d, h := deps[|deps| - 1], WithDependencies(g, a, deps[..|deps| - 1]);
      if d.optional || d.found.None? || d.found.value !in h then h else WithEdge(h, a, d.found.value)
  }

  lemma {:induction false} WithDependenciesEdges(g: Nodes, a: Id, deps: seq<Dependency>)
    requires a in g && forall b :: NeedsHard(deps, b) ==> b in g
    ensures HasEdgesTo(g, WithDependencies(g, a, deps), a, deps)
    decreases |deps|
  {
    if deps != [] {
      var d, rest := deps[|deps| - 1], deps[..|deps| - 1];
      assert deps == rest + [d];
      assert forall b :: NeedsHard(rest, b) ==> NeedsHard(deps, b);
      WithDependenciesEdges(g, a, rest);
      if d.optional || d.found.None? {
        NoFurtherDependency(g, WithDependencies(g, a, rest), a, rest, d);
      } else {
        assert NeedsHard(deps, d.found.value);
        WithEdgeAddsOneEdge(WithDependencies(g, a, rest), a, d.found.value);
        OneMoreDependency(g, WithDependencies(g, a, rest), WithDependencies(g, a, deps), a, rest, d.found.value);
      }
    }
  }

  /** The graph as it would be with `m` installed. */
  ghost function Trial(g: Nodes, m: Module): Nodes
    requires m.dependencies.Some?
  {
    WithDependencies(WithModule(g, m), m.id, m.dependencies.value)
  }

  function WithModule(g: Nodes, m: Module): Nodes {
    g[m.id := if m.id in g then g[m.id].(symbolicName := m.symbolicName) else Node(m.symbolicName, [], [], 0, 0)]
  }

  /** Every hard dependency of `m` is a module of the graph, or `m` itself. */
  ghost predicate DependenciesKnown(g: Nodes, m: Module) {
    forall b :: Needs(m, b) ==> b in g || b == m.id
  }

  // ---------------------------------------------------------------------------------------------
  // Orders
  // ---------------------------------------------------------------------------------------------

  /** `r` lists, in the order of `s`, the members of `s` that are registered. */
  ghost predicate KeepsOrder(s: seq<Id>, r: seq<Id>, registered: set<Id>) {
    && Distinct(r)
    && (forall a :: a in r <==> a in s && a in registered)
    && (forall a, b :: a in r && b in r && Find(s, a) < Find(s, b) ==> Find(r, a) < Find(r, b))
  }

  lemma KeepsOrderNext(s: seq<Id>, r: seq<Id>, registered: set<Id>, i: nat)
    requires Distinct(s) && i < |s| && KeepsOrder(s[..i], r, registered)
    ensures KeepsOrder(s[..i + 1], if s[i] in registered then r + [s[i]] else r, registered)
  {
    hide Find;
    var t, t' := s[..i], s[..i + 1];
    assert t' == t + [s[i]] && s[i] !in t;
    FindAppended(t, s[i]);
    if s[i] in registered {
      FindAppended(r, s[i]);
    }
  }

  lemma FindAppended(s: seq<Id>, x: Id)
    requires x !in s
    ensures Find(s + [x], x) == |s|
    ensures forall a :: a in s ==> Find(s + [x], a) == Find(s, a)
  {
    assert (s + [x])[|s|] == x;
    forall a | a in s
      ensures Find(s + [x], a) == Find(s, a)
    {
      FindInPrefix(s, [x], a);
    }
  }

  lemma {:induction false} FindInPrefix(s: seq<Id>, u: seq<Id>, a: Id)
    requires a in s
    ensures Find(s + u, a) == Find(s, a)
  {
    if s[0] != a {
      assert (s + u)[1..] == s[1..] + u;
      FindInPrefix(s[1..], u, a);
    }
  }

  ghost predicate IsReverse(s: seq<Id>, r: seq<Id>) {
    |r| == |s| && forall k :: 0 <= k < |s| ==> r[k] == s[|s| - 1 - k]
  }

  lemma ReverseTurnsOrder(s: seq<Id>, r: seq<Id>)
    requires Distinct(s) && IsReverse(s, r)
    ensures Distinct(r)
    ensures forall a :: a in r <==> a in s
    ensures forall a :: a in s ==> Find(r, a) == |s| - 1 - Find(s, a)
  {
    forall a | a in s
      ensures a in r && Find(r, a) == |s| - 1 - Find(s, a)
    {
      assert r[|s| - 1 - Find(s, a)] == a;
      assert r[Find(r, a)] == s[|s| - 1 - Find(r, a)];
    }
  }

  /** In the start order every module comes after what it depends on; in the stop order, before. */
  ghost predicate StartsAfterDependencies(g: Nodes, order: seq<Id>) {
    forall a, b :: Edge(g, a, b) && a in order && b in order ==> Find(order, b) < Find(order, a)
  }

  ghost predicate StopsBeforeDependencies(g: Nodes, order: seq<Id>) {
    forall a, b :: Edge(g, a, b) && a in order && b in order ==> Find(order, a) < Find(order, b)
  }

  // ---------------------------------------------------------------------------------------------
  // The resolver
  // ---------------------------------------------------------------------------------------------

  class DependencyResolver {
    var graph: DependencyGraph

    constructor ()
      ensures fresh(graph) && graph.Valid() && graph.nodes == map[]
    {
      graph := new DependencyGraph();
    }

    /** Start over from the registered modules.  When the graph has a cycle the operation fails, and the
        cyclic graph is what the resolver is left with. */
    method BuildGraph(modules: seq<Module>) returns (r: Outcome<GraphError>)
      requires forall m, b :: m in modules && Needs(m, b) ==> Listed(modules, b)
      modifies graph
      ensures graph.Valid()
      ensures forall a :: a in graph.nodes <==> Listed(modules, a)
      ensures forall x, y :: Edge(graph.nodes, x, y) <==> SomeNeeds(modules, x, y)
      ensures r.Pass? <==> Acyclic(graph.nodes)
      ensures r.Fail? ==> r.error.ContainsCycles? && r.error.cycles != [] && ReportsSimpleCycles(graph.nodes, r.error.cycles)
    {
      hide *;
      graph.Clear();
      NoEdges();
      for i := 0 to |modules|
        invariant graph.Valid() && forall x, y :: !Edge(graph.nodes, x, y)
        invariant forall a :: a in graph.nodes <==> Listed(modules[..i], a)
      {
        ghost var before := graph.nodes;
        graph.AddNode(modules[i].id, modules[i].symbolicName);
        AddNodeKeepsEdges(before, graph.nodes, modules[i].id);
        ListedNext(modules, i);
      }
      ListedAll(modules);
      for i := 0 to |modules|
        invariant graph.Valid()
        invariant forall a :: a in graph.nodes <==> Listed(modules, a)
        invariant forall x, y :: Edge(graph.nodes, x, y) <==> SomeNeeds(modules[..i], x, y)
      {
        ghost var before := graph.nodes;
        assert modules[i] in modules;
        AddModuleToGraph(modules[i]);
        SomeNeedsNext(modules, i, before, graph.nodes);
      }
      assert modules[..|modules|] == modules;
      var cyclic := graph.HasCycle();
      if cyclic {
        var cycles := graph.DetectCycles();
        return Fail(ContainsCycles(cycles));
      }
      return Pass;
    }

    method AddModuleToGraph(m: Module)
      requires graph.Valid() && m.id in graph.nodes && forall b :: Needs(m, b) ==> b in graph.nodes
      modifies graph
      ensures graph.Valid() && graph.nodes.Keys == old(graph.nodes.Keys)
      ensures m.dependencies.Some? ==> HasEdgesTo(old(graph.nodes), graph.nodes, m.id, m.dependencies.value)
      ensures m.dependencies.None? ==> graph.nodes == old(graph.nodes)
    {
      hide *;
      if m.dependencies.None? {
        return;
      }
      var deps := m.dependencies.value;
      ghost var start := graph.nodes;
      HardDependenciesKnown(start, m);
      for i := 0 to |deps|
        invariant graph.Valid() && graph.nodes.Keys == start.Keys
        invariant graph.nodes == WithDependencies(start, m.id, deps[..i])
      {
        var d := deps[i];
        NextDependency(start, m.id, deps, i);
        if !d.optional && d.found.Some? {
          var added := graph.AddEdge(m.id, d.found.value);
        }
      }
      assert deps[..|deps|] == deps;
      WithDependenciesEdges(start, m.id, deps);
    }

    method GetStartOrder(registered: set<Id>) returns (r: Result<seq<Id>, GraphError>)
      requires graph.Valid()
      ensures r.Success? <==> Acyclic(graph.nodes)
      ensures r.Success? ==>
        && Distinct(r.value) && (forall a :: a in r.value <==> a in graph.nodes && a in registered)
        && StartsAfterDependencies(graph.nodes, r.value)
    {
      var sorted := graph.TopologicalSort();
      if sorted.Failure? {
        return Failure(sorted.error);
      }
      var modules := Registered(sorted.value, registered);
      return Success(modules);
    }

    method GetStopOrder(registered: set<Id>) returns (r: Result<seq<Id>, GraphError>)
      requires graph.Valid()
      ensures r.Success? <==> Acyclic(graph.nodes)
      ensures r.Success? ==>
        && Distinct(r.value) && (forall a :: a in r.value <==> a in graph.nodes && a in registered)
        && StopsBeforeDependencies(graph.nodes, r.value)
    {
      var sorted := graph.TopologicalSort();
      if sorted.Failure? {
        return Failure(sorted.error);
      }
      var ids := Reverse(sorted.value);
      ReverseTurnsOrder(sorted.value, ids);
      var modules := Registered(ids, registered);
      return Success(modules);
    }

    /** Would the graph, with `m` and its hard dependencies added, be whole and free of cycles? */
    method ValidateModule(m: Module) returns (valid: bool)
      requires graph.Valid()
      ensures valid <==> m.dependencies.Some? && DependenciesKnown(graph.nodes, m) && Acyclic(Trial(graph.nodes, m))
    {
      var trial := new DependencyGraph.Copy(graph);
      trial.AddNode(m.id, m.symbolicName);
      if m.dependencies.None? {
        return false;
      }
      hide *;
      var deps := m.dependencies.value;
      ghost var start := trial.nodes;
      StartOfTrial(graph.nodes, m, start);
      for i := 0 to |deps|
        invariant fresh(trial) && trial.Valid() && graph.Valid() && graph.nodes == old(graph.nodes)
        invariant m.id in trial.nodes && trial.nodes == WithDependencies(start, m.id, deps[..i])
        invariant forall b :: NeedsHard(deps[..i], b) ==> b in start
      {
        var d := deps[i];
        NextDependency(start, m.id, deps, i);
        if !d.optional && d.found.Some? {
          var safe := trial.CanAddEdge(m.id, d.found.value);
          if !safe {
            UnsafeDependency(start, m.id, deps, i);
            TrialOutcome(graph.nodes, m, start);
            return false;
          }
          var added := trial.AddEdge(m.id, d.found.value);
        }
      }
      assert deps[..|deps|] == deps;
      TrialOutcome(graph.nodes, m, start);
      var cyclic := trial.HasCycle();
      valid := !cyclic;
    }
  }

  ghost predicate Listed(modules: seq<Module>, a: Id) {
    exists m :: m in modules && m.id == a
  }

  ghost predicate SomeNeeds(modules: seq<Module>, x: Id, y: Id) {
    exists m :: m in modules && m.id == x && Needs(m, y)
  }

  lemma NoEdges()
    ensures forall x, y :: !Edge(map[], x, y)
    ensures forall a :: !Listed([], a)
  {
  }

  lemma AddNodeKeepsEdges(g: Nodes, h: Nodes, id: Id)
    requires Edges(h) == Edges(g) && forall x, y :: !Edge(g, x, y)
    ensures forall x, y :: !Edge(h, x, y)
  {
    forall x: Id, y: Id
      ensures !Edge(h, x, y)
    {
      assert Edge(h, x, y) <==> (x, y) in Edges(h);
      assert Edge(g, x, y) <==> (x, y) in Edges(g);
    }
  }

  lemma ListedNext(modules: seq<Module>, i: nat)
    requires i < |modules|
    ensures forall a :: Listed(modules[..i + 1], a) <==> Listed(modules[..i], a) || a == modules[i].id
  {
    assert modules[..i + 1] == modules[..i] + [modules[i]];
    forall a
      ensures Listed(modules[..i + 1], a) <==> Listed(modules[..i], a) || a == modules[i].id
    {
      assert a == modules[i].id ==> modules[i] in modules[..i + 1];
    }
  }

  lemma ListedAll(modules: seq<Module>)
    ensures modules[..|modules|] == modules
    ensures forall m :: m in modules ==> Listed(modules, m.id)
    ensures forall x, y :: !SomeNeeds(modules[..0], x, y)
  {
  }

  lemma SomeNeedsNext(modules: seq<Module>, i: nat, g: Nodes, h: Nodes)
    requires i < |modules|
    requires forall x, y :: Edge(g, x, y) <==> SomeNeeds(modules[..i], x, y)
    requires modules[i].dependencies.Some? ==> HasEdgesTo(g, h, modules[i].id, modules[i].dependencies.value)
    requires modules[i].dependencies.None? ==> g == h
    ensures forall x, y :: Edge(h, x, y) <==> SomeNeeds(modules[..i + 1], x, y)
  {
    assert modules[..i + 1] == modules[..i] + [modules[i]];
    forall x, y
      ensures Edge(h, x, y) <==> SomeNeeds(modules[..i + 1], x, y)
    {
      assert SomeNeeds(modules[..i + 1], x, y) <==>
             SomeNeeds(modules[..i], x, y) || (modules[i].id == x && Needs(modules[i], y)) by {
        assert modules[i] in modules[..i + 1];
      }
    }
  }

  lemma HardDependenciesKnown(g: Nodes, m: Module)
    requires m.dependencies.Some? && m.id in g && forall b :: Needs(m, b) ==> b in g
    ensures forall b :: NeedsHard(m.dependencies.value, b) ==> b in g
    ensures WithDependencies(g, m.id, m.dependencies.value[..0]) == g
  {
    forall b | NeedsHard(m.dependencies.value, b)
      ensures b in g
    {
      assert Needs(m, b);
    }
  }

  lemma StartOfTrial(g: Nodes, m: Module, start: Nodes)
    requires m.dependencies.Some?
    requires start == g[m.id := if m.id in g then g[m.id].(symbolicName := m.symbolicName) else Node(m.symbolicName, [], [], 0, 0)]
    ensures start == WithModule(g, m) && m.id in start
    ensures WithDependencies(start, m.id, m.dependencies.value[..0]) == start
    ensures forall b :: !NeedsHard(m.dependencies.value[..0], b)
  {
  }

  lemma NextDependency(start: Nodes, a: Id, deps: seq<Dependency>, i: nat)
    requires a in start && i < |deps|
    ensures WithDependencies(start, a, deps[..i]).Keys == start.Keys
    ensures var d, h := deps[i], WithDependencies(start, a, deps[..i]);
            WithDependencies(start, a, deps[..i + 1]) ==
            if d.optional || d.found.None? || d.found.value !in h then h else WithEdge(h, a, d.found.value)
    ensures forall b :: NeedsHard(deps[..i + 1], b) <==> NeedsHard(deps[..i], b) || deps[i] == Dependency(false, Some(b))
  {
    assert deps[..i + 1] == deps[..i] + [deps[i]];
    assert deps[..i + 1][..i] == deps[..i];
  }

  lemma TrialOutcome(g: Nodes, m: Module, start: Nodes)
    requires m.dependencies.Some? && start == WithModule(g, m)
    ensures Trial(g, m) == WithDependencies(start, m.id, m.dependencies.value)
    ensures DependenciesKnown(g, m) <==> forall b :: NeedsHard(m.dependencies.value, b) ==> b in start
  {
    if DependenciesKnown(g, m) {
      forall b | NeedsHard(m.dependencies.value, b)
        ensures b in start
      {
        assert Needs(m, b);
      }
    }
  }

  /** The trial stops at a dependency that is unknown or would close a cycle: the full trial fails too. */
  lemma UnsafeDependency(start: Nodes, a: Id, deps: seq<Dependency>, i: nat)
    requires a in start && i < |deps| && deps[i].found.Some? && !deps[i].optional
    requires forall b :: NeedsHard(deps[..i], b) ==> b in start
    requires var h, b := WithDependencies(start, a, deps[..i]), deps[i].found.value;
             b !in h || (!Edge(h, a, b) && Reaches(h, b, a))
    ensures (forall b :: NeedsHard(deps, b) ==> b in start) ==> !Acyclic(WithDependencies(start, a, deps))
  {
    var b := deps[i].found.value;
    assert NeedsHard(deps, b);
    if forall b :: NeedsHard(deps, b) ==> b in start {
      WithDependenciesEdges(start, a, deps);
      WithDependenciesEdges(start, a, deps[..i]);
      WayBackMakesCyclic(start, WithDependencies(start, a, deps[..i]), WithDependencies(start, a, deps), a, deps[..i], deps, b);
    }
  }

  /** The ids of the registered modules, in the given order. */
  method Registered(ids: seq<Id>, registered: set<Id>) returns (modules: seq<Id>)
    requires Distinct(ids)
    ensures KeepsOrder(ids, modules, registered)
  {
    modules := [];
    for i := 0 to |ids|
      invariant KeepsOrder(ids[..i], modules, registered)
    {
      KeepsOrderNext(ids, modules, registered, i);
      if ids[i] in registered {
        modules := modules + [ids[i]];
      }
    }
    assert ids[..|ids|] == ids;
  }

  method Reverse(ids: seq<Id>) returns (r: seq<Id>)
    ensures IsReverse(ids, r)
  {
    r := ids;
    var i, j := 0, |ids|;
    while i + 1 < j
      invariant 0 <= i && i + j == |ids| && |r| == |ids| && i <= j + 1
      invariant forall k :: 0 <= k < i ==> r[k] == ids[|ids| - 1 - k]
      invariant forall k :: j <= k < |ids| ==> r[k] == ids[|ids| - 1 - k]
      invariant forall k :: i <= k < j ==> r[k] == ids[k]
      decreases j
    {
      r := r[i := r[j - 1]][j - 1 := r[i]];
      i, j := i + 1, j - 1;
    }
  }

  /** What a caller learns from a trial: the trial graph has exactly the old edges and one from the
      module to each hard dependency, so a valid module keeps the modules orderable. */
  lemma TrialAddsTheDependencies(g: Nodes, m: Module)
    requires m.dependencies.Some? && DependenciesKnown(g, m)
    ensures forall x, y :: Edge(Trial(g, m), x, y) <==> Edge(g, x, y) || (x == m.id && Needs(m, y))
  {
    var h := WithModule(g, m);
    WithDependenciesEdges(h, m.id, m.dependencies.value);
    forall x, y
      ensures Edge(h, x, y) <==> Edge(g, x, y)
    {
    }
  }
}
