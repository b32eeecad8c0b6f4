/** Dependency graphs as values, and the facts about walks, cycles and orders that the graph
    algorithms in DependencyGraph rest on. */
module Graphs {

  type Id = nat

  /** A module and its edges: `dependencies` are the modules it needs, `dependents` those that need it. */
  datatype Node = Node(symbolicName: string, dependencies: seq<Id>, dependents: seq<Id>, inDegree: int, outDegree: int)

  type Nodes = map<Id, Node>

  // ---------------------------------------------------------------------------------------------
  // Sequences without duplicates
  // ---------------------------------------------------------------------------------------------

  ghost predicate Distinct<T>(s: seq<T>) {
    forall i, j :: 0 <= i < j < |s| ==> s[i] != s[j]
  }

  /** The index of the first `x` in `s`, or `|s|` when there is none. */
  function Find<T(==)>(s: seq<T>, x: T): (place: nat)
    ensures place <= |s|
    ensures place < |s| ==> s[place] == x
    ensures forall j :: 0 <= j < place ==> s[j] != x
    ensures place == |s| <==> x !in s
  {
    if s == [] then 0
    else if s[0] == x then 0
    else
      var i := 1 + Find(s[1..], x);
      assert s == [s[0]] + s[1..];
      assert s[..i] == [s[0]] + s[1..][..i - 1];
      i
  }

  /** `s` without its occurrences of `x`. */
  function Without<T(==,!new)>(s: seq<T>, x: T): (r: seq<T>)
    ensures forall y :: y in r <==> y in s && y != x
  {
    if s == [] then []
    else if s[0] == x then Without(s[1..], x)
    else [s[0]] + Without(s[1..], x)
  }

  lemma {:induction false} WithoutAbsent<T(!new)>(s: seq<T>, x: T)
    requires x !in s
    ensures Without(s, x) == s
  {
    if s != [] {
      WithoutAbsent(s[1..], x);
    }
  }

  /** Erasing the one occurrence of `x` leaves exactly the other elements, in order. */
  lemma {:induction false} EraseIsWithout<T(!new)>(s: seq<T>, i: nat)
    requires Distinct(s) && i < |s|
    ensures s[..i] + s[i + 1..] == Without(s, s[i])
    decreases |s|
  {
    if i == 0 {
      assert s[..0] + s[1..] == s[1..];
      WithoutAbsent(s[1..], s[0]);
    } else {
      assert s[1..][i - 1] == s[i];
      EraseIsWithout(s[1..], i - 1);
      assert s[..i] + s[i + 1..] == [s[0]] + (s[1..][..i - 1] + s[1..][i..]);
    }
  }

  lemma {:induction false} WithoutKeepsDistinct<T(!new)>(s: seq<T>, x: T)
    requires Distinct(s)
    ensures Distinct(Without(s, x))
  {
    if s != [] {
      WithoutKeepsDistinct(s[1..], x);
      assert s[0] !in s[1..];
      assert s[0] !in Without(s[1..], x);
    }
  }

  ghost function Elements<T>(s: seq<T>): set<T> {
    set x | x in s
  }

  lemma {:induction false} DistinctSize<T>(s: seq<T>)
    requires Distinct(s)
    ensures |Elements(s)| == |s|
  {
    if s != [] {
      DistinctSize(s[1..]);
      assert s[0] !in s[1..];
      assert Elements(s) == {s[0]} + Elements(s[1..]);
    }
  }

  /** More positions than values: two positions hold the same value. */
  lemma {:induction false} Pigeonhole<T>(s: seq<T>, values: set<T>) returns (i: nat, j: nat)
    requires |s| > |values| && forall x :: x in s ==> x in values
    ensures i < j < |s| && s[i] == s[j]
  {
    if k: nat, l: nat :| k < l < |s| && s[k] == s[l] {
      i, j := k, l;
    } else {
      DistinctSize(s);
      SubsetSize(Elements(s), values);
      assert false;
    }
  }

  lemma {:induction false} SubsetSize<T>(a: set<T>, b: set<T>)
    requires a <= b
    ensures |a| <= |b|
    ensures |b - a| == |b| - |a|
  {
    assert b == a + (b - a);
  }

  // ---------------------------------------------------------------------------------------------
  // Walks and cycles
  // ---------------------------------------------------------------------------------------------

  ghost predicate Edge(g: Nodes, a: Id, b: Id) {
    a in g && b in g[a].dependencies
  }

  ghost predicate IsWalk(g: Nodes, w: seq<Id>) {
    |w| >= 1 && forall i :: 0 <= i < |w| - 1 ==> Edge(g, w[i], w[i + 1])
  }

  ghost predicate WalkBetween(g: Nodes, a: Id, b: Id, w: seq<Id>) {
    IsWalk(g, w) && w[0] == a && w[|w| - 1] == b
  }

  /** `b` can be reached from `a` in zero or more steps. */
  ghost predicate Reaches(g: Nodes, a: Id, b: Id) {
    exists w :: WalkBetween(g, a, b, w)
  }

  /** `a` reaches itself in one or more steps. */
  ghost predicate OnCycle(g: Nodes, a: Id) {
    exists w :: WalkBetween(g, a, a, w) && |w| >= 2
  }

  ghost predicate Acyclic(g: Nodes) {
    forall a :: !OnCycle(g, a)
  }

  /** A closed walk through distinct nodes: each depends on the next, the last on the first. */
  ghost predicate IsSimpleCycle(g: Nodes, c: seq<Id>) {
    IsWalk(g, c) && Distinct(c) && Edge(g, c[|c| - 1], c[0])
  }

  lemma ReachesItself(g: Nodes, a: Id)
    ensures Reaches(g, a, a)
  {
    assert WalkBetween(g, a, a, [a]);
  }

  lemma ReachesThenEdge(g: Nodes, a: Id, b: Id, c: Id)
    requires Reaches(g, a, b) && Edge(g, b, c)
    ensures Reaches(g, a, c)
  {
    var w :| WalkBetween(g, a, b, w);
    assert WalkBetween(g, a, c, w + [c]);
  }

  /** An edge back to where a walk began closes a cycle. */
  lemma BackEdgeClosesCycle(g: Nodes, a: Id, b: Id)
    requires Reaches(g, a, b) && Edge(g, b, a)
    ensures OnCycle(g, a)
  {
    var w :| WalkBetween(g, a, b, w);
    assert WalkBetween(g, a, a, w + [a]);
  }

  lemma SimpleCycleIsCycle(g: Nodes, c: seq<Id>)
    requires IsSimpleCycle(g, c)
    ensures OnCycle(g, c[0])
  {
    assert WalkBetween(g, c[0], c[0], c + [c[0]]);
  }

  /** A walk stays inside a set that is closed under dependencies. */
  lemma {:induction false} WalkStaysInside(g: Nodes, inside: set<Id>, w: seq<Id>)
    requires IsWalk(g, w) && w[0] in inside
    requires forall a, b :: a in inside && Edge(g, a, b) ==> b in inside
    ensures w[|w| - 1] in inside
    decreases |w|
  {
    if |w| > 1 {
      assert Edge(g, w[0], w[1]);
      assert IsWalk(g, w[1..]) by {
        forall i | 0 <= i < |w[1..]| - 1
          ensures Edge(g, w[1..][i], w[1..][i + 1])
        {
          assert Edge(g, w[i + 1], w[i + 2]);
        }
      }
      WalkStaysInside(g, inside, w[1..]);
    }
  }

  ghost predicate DependsInto(g: Nodes, a: Id, inside: set<Id>) {
    exists b :: b in inside && Edge(g, a, b)
  }

  ghost predicate NobodyLeaves(g: Nodes, stuck: set<Id>) {
    forall a :: a in stuck ==> DependsInto(g, a, stuck)
  }

  /** A walk of any length inside a set every member of which has a dependency in the set. */
  lemma {:induction false} LongWalk(g: Nodes, stuck: set<Id>, from: Id, n: nat) returns (w: seq<Id>)
    requires from in stuck && NobodyLeaves(g, stuck)
    ensures IsWalk(g, w) && |w| == n + 1 && w[0] == from
    ensures forall x :: x in w ==> x in stuck
    decreases n
  {
    if n == 0 {
      w := [from];
    } else {
      assert DependsInto(g, from, stuck);
      var next :| next in stuck && Edge(g, from, next);
      var rest := LongWalk(g, stuck, next, n - 1);
      w := [from] + rest;
    }
  }

  /** A walk that comes back to a place has gone round a cycle. */
  lemma RepeatedPlaceIsOnCycle(g: Nodes, w: seq<Id>, i: nat, j: nat)
    requires IsWalk(g, w) && i < j < |w| && w[i] == w[j]
    ensures OnCycle(g, w[i])
  {
    var loop := w[i..j + 1];
    forall k | 0 <= k < |loop| - 1
      ensures Edge(g, loop[k], loop[k + 1])
    {
      assert Edge(g, w[i + k], w[i + k + 1]);
    }
    assert WalkBetween(g, w[i], w[i], loop);
  }

  /** A nonempty finite set that nobody can leave in finitely many steps holds a cycle. */
  lemma StuckSetHasCycle(g: Nodes, stuck: set<Id>)
    requires stuck != {} && NobodyLeaves(g, stuck)
    ensures !Acyclic(g)
  {
    hide NobodyLeaves, IsWalk, OnCycle;
    var from :| from in stuck;
    var w := LongWalk(g, stuck, from, |stuck|);
    var i, j := Pigeonhole(w, stuck);
    RepeatedPlaceIsOnCycle(g, w, i, j);
  }

  // ---------------------------------------------------------------------------------------------
  // Orders in which every module comes after its dependencies
  // ---------------------------------------------------------------------------------------------

  ghost predicate DependenciesFirst(g: Nodes, s: seq<Id>) {
    forall i :: 0 <= i < |s| ==> s[i] in g && forall d :: d in g[s[i]].dependencies ==> d in s[..i]
  }

  lemma DependenciesFirstExtend(g: Nodes, s: seq<Id>, x: Id)
    requires DependenciesFirst(g, s) && x in g
    requires forall d :: d in g[x].dependencies ==> d in s
    ensures DependenciesFirst(g, s + [x])
  {
    forall i | 0 <= i < |s + [x]|
      ensures (s + [x])[i] in g && forall d :: d in g[(s + [x])[i]].dependencies ==> d in (s + [x])[..i]
    {
      assert i < |s| ==> (s + [x])[..i] == s[..i];
      assert i == |s| ==> (s + [x])[..i] == s;
    }
  }

  /** Every step of a walk moves to an earlier place in the order. */
  lemma {:induction false} WalkDescends(g: Nodes, s: seq<Id>, w: seq<Id>)
    requires DependenciesFirst(g, s) && IsWalk(g, w) && w[0] in s
    ensures w[|w| - 1] in s && Find(s, w[|w| - 1]) + |w| - 1 <= Find(s, w[0])
    decreases |w|
  {
    if |w| > 1 {
      var i := Find(s, w[0]);
      assert Edge(g, w[0], w[1]);
      assert w[1] in s[..i];
      assert Find(s, w[1]) < i;
      assert IsWalk(g, w[1..]) by {
        forall k | 0 <= k < |w[1..]| - 1
          ensures Edge(g, w[1..][k], w[1..][k + 1])
        {
          assert Edge(g, w[k + 1], w[k + 2]);
        }
      }
      WalkDescends(g, s, w[1..]);
    }
  }

  lemma OrderedNodesAreOnNoCycle(g: Nodes, s: seq<Id>)
    requires DependenciesFirst(g, s)
    ensures forall a :: a in s ==> !OnCycle(g, a)
  {
    forall a | a in s
      ensures !OnCycle(g, a)
    {
      if OnCycle(g, a) {
        var w :| WalkBetween(g, a, a, w) && |w| >= 2;
        WalkDescends(g, s, w);
        assert false;
      }
    }
  }

  lemma NodesOnCyclesAreKnown(g: Nodes, a: Id)
    requires OnCycle(g, a)
    ensures a in g
  {
    var w :| WalkBetween(g, a, a, w) && |w| >= 2;
    assert Edge(g, w[0], w[1]);
  }

  lemma OrderOfAllNodesShowsAcyclic(g: Nodes, s: seq<Id>)
    requires DependenciesFirst(g, s) && forall a :: a in g ==> a in s
    ensures Acyclic(g)
  {
    OrderedNodesAreOnNoCycle(g, s);
    if a :| OnCycle(g, a) {
      NodesOnCyclesAreKnown(g, a);
    }
  }

  // ---------------------------------------------------------------------------------------------
  // The mirrored representation
  // ---------------------------------------------------------------------------------------------

  /** The dependents list of `b` names `a`. */
  ghost predicate BackEdge(g: Nodes, a: Id, b: Id) {
    b in g && a in g[b].dependents
  }

  /** No duplicates in the lists, and counters that are the lengths of the lists. */
  ghost predicate WellKept(n: Node) {
    && Distinct(n.dependencies) && n.outDegree == |n.dependencies|
    && Distinct(n.dependents) && n.inDegree == |n.dependents|
  }

  /** The two adjacency lists mirror each other and name known modules only. */
  ghost predicate Mirrored(g: Nodes) {
    && (forall a :: a in g ==> WellKept(g[a]))
    && (forall a, b :: Edge(g, a, b) ==> BackEdge(g, a, b))
    && (forall a, b :: BackEdge(g, a, b) ==> Edge(g, a, b))
  }

  ghost function Edges(g: Nodes): set<(Id, Id)> {
    set a, b | a in g && b in g[a].dependencies :: (a, b)
  }

  ghost function OutDegreeSum(g: Nodes): int {
    if g == map[] then 0
    else
      var a :| a in g;
      g[a].outDegree + OutDegreeSum(g - {a})
  }

  /** When every counter is the length of its list, the counters add up to the number of edges. */
  lemma {:induction false} OutDegreeSumCountsEdges(g: Nodes)
    requires forall a :: a in g ==> Distinct(g[a].dependencies) && g[a].outDegree == |g[a].dependencies|
    ensures OutDegreeSum(g) == |Edges(g)|
    decreases |g|
  {
    if g == map[] {
      assert Edges(g) == {};
    } else {
      var a: Id :| a in g && OutDegreeSum(g) == g[a].outDegree + OutDegreeSum(g - {a});
      var rest := g - {a};
      OutDegreeSumCountsEdges(rest);
      var out := PairsWith(a, g[a].dependencies);
      PairsSize(a, g[a].dependencies);
      assert Edges(g) == out + Edges(rest);
      assert out !! Edges(rest);
    }
  }

  ghost function PairsWith(a: Id, s: seq<Id>): set<(Id, Id)> {
    set b | b in s :: (a, b)
  }

  lemma {:induction false} PairsSize(a: Id, s: seq<Id>)
    requires Distinct(s)
    ensures |PairsWith(a, s)| == |s|
  {
    if s != [] {
      PairsSize(a, s[1..]);
      assert (a, s[0]) !in PairsWith(a, s[1..]);
      assert PairsWith(a, s) == {(a, s[0])} + PairsWith(a, s[1..]);
    }
  }

  // ---------------------------------------------------------------------------------------------
  // The graph with an edge more
  // ---------------------------------------------------------------------------------------------

  /** The edges of `h` are those of `g` and the one from `a` to `b`. */
  ghost predicate HasOneMoreEdge(g: Nodes, h: Nodes, a: Id, b: Id) {
    forall x, y :: Edge(h, x, y) <==> Edge(g, x, y) || (x == a && y == b)
  }

  ghost predicate SubgraphOf(g: Nodes, h: Nodes) {
    forall x, y :: Edge(g, x, y) ==> Edge(h, x, y)
  }

  lemma SubgraphKeepsWalks(g: Nodes, h: Nodes, w: seq<Id>)
    requires SubgraphOf(g, h) && IsWalk(g, w)
    ensures IsWalk(h, w)
  {
  }

  lemma SubgraphOfAcyclic(g: Nodes, h: Nodes)
    requires SubgraphOf(g, h)
    ensures Acyclic(h) ==> Acyclic(g)
  {
    if a :| OnCycle(g, a) {
      var w :| WalkBetween(g, a, a, w) && |w| >= 2;
      SubgraphKeepsWalks(g, h, w);
      assert WalkBetween(h, a, a, w);
      assert OnCycle(h, a);
    }
  }

  /** Before the first use of the new edge the walk is one of the smaller graph. */
  lemma {:induction false} BeforeTheNewEdge(g: Nodes, h: Nodes, a: Id, b: Id, w: seq<Id>)
    requires HasOneMoreEdge(g, h, a, b) && IsWalk(h, w)
    ensures IsWalk(g, w) || Reaches(g, w[0], a)
    decreases |w|
  {
    if |w| > 1 {
      var shorter := w[..|w| - 1];
      assert IsWalk(h, shorter) by {
        forall i | 0 <= i < |shorter| - 1
          ensures Edge(h, shorter[i], shorter[i + 1])
        {
          assert Edge(h, w[i], w[i + 1]);
        }
      }
      BeforeTheNewEdge(g, h, a, b, shorter);
      assert Edge(h, w[|w| - 2], w[|w| - 1]);
      if IsWalk(g, shorter) {
        if Edge(g, w[|w| - 2], w[|w| - 1]) {
          forall i | 0 <= i < |w| - 1
            ensures Edge(g, w[i], w[i + 1])
          {
            if i < |w| - 2 {
              assert Edge(g, shorter[i], shorter[i + 1]);
            }
          }
        } else {
          assert WalkBetween(g, w[0], a, shorter);
        }
      }
    }
  }

  lemma ReachesTransitive(g: Nodes, a: Id, b: Id, c: Id)
    requires Reaches(g, a, b) && Reaches(g, b, c)
    ensures Reaches(g, a, c)
  {
    var v :| WalkBetween(g, a, b, v);
    var w :| WalkBetween(g, b, c, w);
    var u := v + w[1..];
    forall i | 0 <= i < |u| - 1
      ensures Edge(g, u[i], u[i + 1])
    {
      if i < |v| - 1 {
        assert Edge(g, v[i], v[i + 1]);
      } else {
        var k := i - (|v| - 1);
        assert u[i] == w[k] && u[i + 1] == w[k + 1];
        assert Edge(g, w[k], w[k + 1]);
      }
    }
    assert WalkBetween(g, a, c, u);
  }

  /** Adding an edge to an acyclic graph keeps it acyclic exactly when there is no way back. */
  lemma NewEdgeKeepsAcyclic(g: Nodes, h: Nodes, a: Id, b: Id)
    requires Acyclic(g) && HasOneMoreEdge(g, h, a, b)
    ensures Acyclic(h) <==> !Reaches(g, b, a)
  {
    if Reaches(g, b, a) {
      var w :| WalkBetween(g, b, a, w);
      SubgraphKeepsWalks(g, h, w);
      assert WalkBetween(h, b, a, w);
      BackEdgeClosesCycle(h, b, a);
      assert !Acyclic(h);
    } else if !Acyclic(h) {
      var c :| OnCycle(h, c);
      var w :| WalkBetween(h, c, c, w) && |w| >= 2;
      BeforeTheNewEdge(g, h, a, b, w);
      if IsWalk(g, w) {
        assert WalkBetween(g, c, c, w);
        assert OnCycle(g, c);
      } else {
        ReachFromNewEdge(g, h, a, b, w);
        ReachesTransitive(g, b, c, a);
      }
    }
  }

  /** A walk that uses the new edge ends somewhere its target reaches. */
  lemma {:induction false} ReachFromNewEdge(g: Nodes, h: Nodes, a: Id, b: Id, w: seq<Id>)
    requires HasOneMoreEdge(g, h, a, b) && IsWalk(h, w) && !IsWalk(g, w)
    ensures Reaches(g, b, w[|w| - 1])
    decreases |w|
  {
    var shorter, last := w[..|w| - 1], w[|w| - 1];
    assert Edge(h, w[|w| - 2], last);
    if !Edge(g, w[|w| - 2], last) {
      ReachesItself(g, b);
    } else {
      assert IsWalk(h, shorter) by {
        forall i | 0 <= i < |shorter| - 1
          ensures Edge(h, shorter[i], shorter[i + 1])
        {
          assert Edge(h, w[i], w[i + 1]);
        }
      }
      if IsWalk(g, shorter) {
        forall i | 0 <= i < |w| - 1
          ensures Edge(g, w[i], w[i + 1])
        {
          if i < |w| - 2 {
            assert Edge(g, shorter[i], shorter[i + 1]);
          }
        }
      }
      ReachFromNewEdge(g, h, a, b, shorter);
      ReachesThenEdge(g, b, w[|w| - 2], last);
    }
  }
}
