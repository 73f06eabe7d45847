/** The genome: which package needs which others to build, and what follows from that. */
module DependencyGraph {
  import opened Wrappers
  import opened Digraph
  import opened Petgraph

  datatype DepsError = CircularDependency(cycle: string) | MissingDependency(name: string)

  // ----- what the graph says about packages -----

  ghost predicate IsNamed(g: Graph, u: nat, a: string) {
    IsNode(g, u) && g.names[u] == a
  }

  /** `a` lists `b` among its dependencies. */
  ghost predicate DependsDirectly(g: Graph, a: string, b: string) {
    exists u, v :: IsNamed(g, u, a) && IsNamed(g, v, b) && HasEdge(g, u, v)
  }

  /** `a` depends on `b`, perhaps by way of others. */
  ghost predicate Depends(g: Graph, a: string, b: string) {
    exists u, v :: IsNamed(g, u, a) && IsNamed(g, v, b) && ReachesByStep(g, Outgoing, u, v)
  }

  /** `b` has to be there to build `a`: it is `a` itself or something that `a` depends on. */
  ghost predicate Needs(g: Graph, a: string, b: string) {
    a in g.names && (a == b || Depends(g, a, b))
  }

  /** No package comes before one that it lists as a dependency. */
  ghost predicate DependenciesFirst(g: Graph, s: seq<string>) {
    forall i, j :: 0 <= i < |s| && 0 <= j < |s| && DependsDirectly(g, s[i], s[j]) ==> j < i
  }

  lemma NameIsNode(g: Graph, a: string, u: nat, v: nat)
    requires IsSimple(g) && IsNamed(g, u, a) && IsNamed(g, v, a)
    ensures u == v
  {
  }

  lemma DependsAtNodes(g: Graph, u: nat, v: nat)
    requires IsSimple(g) && IsNode(g, u) && IsNode(g, v)
    ensures Depends(g, g.names[u], g.names[v]) <==> ReachesByStep(g, Outgoing, u, v)
    ensures DependsDirectly(g, g.names[u], g.names[v]) <==> HasEdge(g, u, v)
  {
    assert IsNamed(g, u, g.names[u]) && IsNamed(g, v, g.names[v]);
    if Depends(g, g.names[u], g.names[v]) {
      var x, y :| IsNamed(g, x, g.names[u]) && IsNamed(g, y, g.names[v]) && ReachesByStep(g, Outgoing, x, y);
      NameIsNode(g, g.names[u], u, x);
      NameIsNode(g, g.names[v], v, y);
    }
    if DependsDirectly(g, g.names[u], g.names[v]) {
      var x, y :| IsNamed(g, x, g.names[u]) && IsNamed(g, y, g.names[v]) && HasEdge(g, x, y);
      NameIsNode(g, g.names[u], u, x);
      NameIsNode(g, g.names[v], v, y);
    }
  }

  lemma DependsTransitive(g: Graph, a: string, b: string, c: string)
    requires IsSimple(g) && Depends(g, a, b) && Depends(g, b, c)
    ensures Depends(g, a, c)
  {
    var u, v :| IsNamed(g, u, a) && IsNamed(g, v, b) && ReachesByStep(g, Outgoing, u, v);
    var x, y :| IsNamed(g, x, b) && IsNamed(g, y, c) && ReachesByStep(g, Outgoing, x, y);
    NameIsNode(g, b, v, x);
    ReachesTransitive(g, Outgoing, u, v, y);
  }

  /** Reaching a node is being it or depending on it. */
  lemma NeedsAtNodes(g: Graph, u: nat, v: nat)
    requires IsSimple(g) && IsNode(g, u) && IsNode(g, v)
    ensures Needs(g, g.names[u], g.names[v]) <==> Reaches(g, Outgoing, u, v)
  {
    DependsAtNodes(g, u, v);
    if Reaches(g, Outgoing, u, v) && u != v {
      var w :| Leads(g, Outgoing, u, v, w);
      assert |w| >= 2;
    }
    ReachesSelf(g, Outgoing, u);
  }

  lemma NeedIsNamed(g: Graph, a: string, b: string) returns (v: nat)
    requires Needs(g, a, b)
    ensures IsNamed(g, v, b)
  {
    if a == b {
      v :| 0 <= v < |g.names| && g.names[v] == b;
    } else {
      var u, w :| IsNamed(g, u, a) && IsNamed(g, w, b) && ReachesByStep(g, Outgoing, u, w);
      v := w;
    }
  }

  // ----- growing the graph -----

  predicate IsIndex(names: seq<string>, index: map<string, nat>) {
    && (forall u :: 0 <= u < |names| ==> names[u] in index && index[names[u]] == u)
    && (forall a :: a in index ==> index[a] < |names| && names[index[a]] == a)
  }

  function WithPackage(g: Graph, a: string): Graph {
    if a in g.names then g else g.(names := g.names + [a])
  }

  /** The graph after `add_dependency`. */
  ghost predicate AddsDependency(g: Graph, g': Graph, source: string, target: string) {
    && g'.names == WithPackage(WithPackage(g, source), target).names
    && forall a, b :: DependsDirectly(g', a, b) <==>
         DependsDirectly(g, a, b) || (a == source && b == target && source != target)
  }

  /** Adding an edge, unless it is there or would be a loop, is adding that one dependency. */
  lemma EdgeIsDependency(g: Graph, g': Graph, u: nat, v: nat)
    requires IsSimple(g) && IsSimple(g') && IsNode(g', u) && IsNode(g', v)
    requires g.names <= g'.names
    requires g'.edges == g.edges + if u != v && !HasEdge(g, u, v) then [(u, v)] else []
    ensures forall a, b :: DependsDirectly(g', a, b) <==>
              DependsDirectly(g, a, b) || (a == g'.names[u] && b == g'.names[v] && u != v)
  {
    forall a, b
      ensures DependsDirectly(g', a, b) <==>
                DependsDirectly(g, a, b) || (a == g'.names[u] && b == g'.names[v] && u != v)
    {
      if DependsDirectly(g', a, b) {
        var x, y :| IsNamed(g', x, a) && IsNamed(g', y, b) && HasEdge(g', x, y);
        assert HasEdge(g, x, y) || (x == u && y == v);
        if HasEdge(g, x, y) {
          assert IsNamed(g, x, a) && IsNamed(g, y, b);
        }
      }
      if DependsDirectly(g, a, b) {
        var x, y :| IsNamed(g, x, a) && IsNamed(g, y, b) && HasEdge(g, x, y);
        assert IsNamed(g', x, a) && IsNamed(g', y, b) && HasEdge(g', x, y);
      }
      if a == g'.names[u] && b == g'.names[v] && u != v {
        assert IsNamed(g', u, a) && IsNamed(g', v, b);
        assert HasEdge(g', u, v) by {
          if HasEdge(g, u, v) {
            assert (u, v) in g.edges;
          } else {
            assert g'.edges[|g.edges|] == (u, v);
          }
        }
      }
    }
  }

  // ----- from orders of nodes to orders of packages -----

  function NamesAt(g: Graph, order: seq<nat>): (r: seq<string>)
    requires forall i :: 0 <= i < |order| ==> IsNode(g, order[i])
    ensures |r| == |order|
    ensures forall i :: 0 <= i < |order| ==> IsNamed(g, order[i], r[i])
  {
    seq(|order|, i requires 0 <= i < |order| && IsNode(g, order[i]) => g.names[order[i]])
  }

  /** The elements in `keep`, in their order. */
  function Filter<T(==, !new)>(s: seq<T>, keep: set<T>): (r: seq<T>)
    ensures forall x :: x in r <==> x in s && x in keep
  {
    if s == [] then []
    else
      var last, rest := s[|s| - 1], Filter(s[..|s| - 1], keep);
      assert forall x :: x in s <==> x in s[..|s| - 1] || x == last;
      if last in keep then rest + [last] else rest
  }

  lemma {:induction false} FilterDistinct<T(!new)>(s: seq<T>, keep: set<T>)
    requires IsDistinct(s)
    ensures IsDistinct(Filter(s, keep))
  {
    if s != [] {
      var last, init := s[|s| - 1], s[..|s| - 1];
      FilterDistinct(init, keep);
      assert last !in init;
    }
  }

  /** What is listed never comes before what it relies on. */
  ghost predicate Respects<T(!new)>(s: seq<T>, reliesOn: (T, T) -> bool) {
    forall i, j :: 0 <= i < |s| && 0 <= j < |s| && reliesOn(s[i], s[j]) ==> j < i
  }

  lemma {:induction false} FilterRespects<T(!new)>(s: seq<T>, keep: set<T>, reliesOn: (T, T) -> bool)
    requires Respects(s, reliesOn)
    ensures Respects(Filter(s, keep), reliesOn)
  {
    if s != [] {
      var last, init := s[|s| - 1], s[..|s| - 1];
      FilterRespects(init, keep, reliesOn);
      var f, r := Filter(init, keep), Filter(s, keep);
      forall x | x in s
        ensures !reliesOn(x, last)
      {
        var k :| 0 <= k < |s| && s[k] == x;
        assert reliesOn(s[k], s[|s| - 1]) ==> |s| - 1 < k;
      }
      assert forall j :: 0 <= j < |r| ==> r[j] in s;
      assert forall j :: 0 <= j < |f| ==> r[j] == f[j];
    }
  }

  lemma FilterBackward(g: Graph, s: seq<nat>, keep: set<nat>)
    requires IsBackward(g, s)
    ensures IsBackward(g, Filter(s, keep))
  {
    FilterRespects(s, keep, (u, v) => HasEdge(g, u, v));
  }

  lemma FilterDependenciesFirst(g: Graph, s: seq<string>, keep: set<string>)
    requires DependenciesFirst(g, s)
    ensures DependenciesFirst(g, Filter(s, keep))
  {
    FilterRespects(s, keep, (a, b) => DependsDirectly(g, a, b));
  }

  /** The names of nodes in an order in which edges lead backward. */
  lemma BackwardNames(g: Graph, order: seq<nat>)
    requires IsSimple(g) && IsBackward(g, order) && IsDistinct(order)
    requires forall i :: 0 <= i < |order| ==> IsNode(g, order[i])
    ensures var s := NamesAt(g, order);
      && IsDistinct(s) && DependenciesFirst(g, s)
      && forall a :: a in s <==> exists u :: u in order && IsNamed(g, u, a)
  {
    var s := NamesAt(g, order);
    forall i, j | 0 <= i < |s| && 0 <= j < |s| && DependsDirectly(g, s[i], s[j])
      ensures j < i
    {
      DependsAtNodes(g, order[i], order[j]);
    }
    forall i, j | 0 <= i < j < |s|
      ensures s[i] != s[j]
    {
      assert order[i] != order[j];
    }
    forall a | exists u :: u in order && IsNamed(g, u, a)
      ensures a in s
    {
      var u :| u in order && IsNamed(g, u, a);
      var i :| 0 <= i < |order| && order[i] == u;
      assert s[i] == a;
    }
    forall a | a in s
      ensures exists u :: u in order && IsNamed(g, u, a)
    {
      var i :| 0 <= i < |s| && s[i] == a;
      assert order[i] in order && IsNamed(g, order[i], a);
    }
  }

  // ----- what the queries promise -----

  /** All packages, each once, dependencies first. */
  ghost predicate IsBuildSequence(g: Graph, s: seq<string>) {
    IsDistinct(s) && DependenciesFirst(g, s) && forall a :: a in s <==> a in g.names
  }

  /** Exactly what is needed to build `a`, each once, dependencies first and `a` last. */
  ghost predicate IsBuildOrder(g: Graph, a: string, s: seq<string>) {
    && IsDistinct(s) && DependenciesFirst(g, s)
    && (forall b :: b in s <==> Needs(g, a, b))
    && s != [] && s[|s| - 1] == a
  }

  lemma NeededNames(g: Graph, start: nat, f: seq<nat>, s: seq<string>)
    requires IsSimple(g) && IsNode(g, start)
    requires forall u :: u in f <==> Reaches(g, Outgoing, start, u)
    requires forall u :: u in f ==> IsNode(g, u)
    requires forall a :: a in s <==> exists u :: u in f && IsNamed(g, u, a)
    ensures forall b :: b in s <==> Needs(g, g.names[start], b)
  {
    forall b
      ensures b in s <==> Needs(g, g.names[start], b)
    {
      if b in s {
        var u :| u in f && IsNamed(g, u, b);
        NeedsAtNodes(g, start, u);
      }
      if Needs(g, g.names[start], b) {
        var v := NeedIsNamed(g, g.names[start], b);
        NeedsAtNodes(g, start, v);
      }
    }
  }

  /** Filtering a topological order by what can be reached gives a build order. */
  lemma ReachableInOrder(g: Graph, order: seq<nat>, start: nat, visited: set<nat>)
    requires IsSimple(g) && IsNode(g, start)
    requires ListsAllNodes(g, order) && IsBackward(g, order) && IsClosed(g, order)
    requires forall x :: x in visited <==> Reaches(g, Outgoing, start, x)
    ensures forall i :: 0 <= i < |Filter(order, visited)| ==> IsNode(g, Filter(order, visited)[i])
    ensures IsBuildOrder(g, g.names[start], NamesAt(g, Filter(order, visited)))
  {
    hide IsSimple, IsBackward, IsClosed, DependenciesFirst, Needs;
    var f := Filter(order, visited);
    FilterDistinct(order, visited);
    FilterBackward(g, order, visited);
    assert forall i :: 0 <= i < |f| ==> f[i] in f;
    BackwardNames(g, f);
    assert forall u :: u in f <==> Reaches(g, Outgoing, start, u) by {
      ReachedAreNodes(g, start);
    }
    NeededNames(g, start, f, NamesAt(g, f));
    EndsWithStart(g, order, start, visited);
  }

  lemma ReachedAreNodes(g: Graph, start: nat)
    ensures forall u :: Reaches(g, Outgoing, start, u) ==> IsNode(g, u)
  {
  }

  lemma EndsWithStart(g: Graph, order: seq<nat>, start: nat, visited: set<nat>)
    requires IsSimple(g) && IsNode(g, start)
    requires ListsAllNodes(g, order) && IsBackward(g, order) && IsClosed(g, order)
    requires forall x :: x in visited <==> Reaches(g, Outgoing, start, x)
    ensures var f := Filter(order, visited);
      f != [] && f[|f| - 1] == start
  {
    var f := Filter(order, visited);
    FilterDistinct(order, visited);
    FilterBackward(g, order, visited);
    forall u, v | u in f && IsNode(g, v) && HasEdge(g, u, v)
      ensures v in f
    {
      ReachesOn(g, Outgoing, start, u, v);
    }
    ReachesSelf(g, Outgoing, start);
    assert start in f;
    var i :| 0 <= i < |f| && f[i] == start;
    var last := f[|f| - 1];
    assert last in f;
    var w :| Leads(g, Outgoing, start, last, w);
    WalkDescends(g, f, w, i, |f| - 1);
  }

  /** All packages in build order. */
  lemma AllInOrder(g: Graph, order: seq<nat>)
    requires IsSimple(g) && ListsAllNodes(g, order) && IsBackward(g, order)
    ensures forall i :: 0 <= i < |order| ==> IsNode(g, order[i])
    ensures IsBuildSequence(g, NamesAt(g, order))
  {
    assert forall i :: 0 <= i < |order| ==> order[i] in order;
    BackwardNames(g, order);
    forall a | a in g.names
      ensures a in NamesAt(g, order)
    {
      var u :| 0 <= u < |g.names| && g.names[u] == a;
      assert u in order && IsNamed(g, u, a);
    }
  }

  /** An error names a package on a cycle. */
  ghost predicate IsCyclic(g: Graph, a: string) {
    Depends(g, a, a)
  }

  lemma CyclicAtNode(g: Graph, u: nat)
    requires IsSimple(g) && IsNode(g, u)
    ensures IsCyclic(g, g.names[u]) <==> IsOnCycle(g, u)
  {
    DependsAtNodes(g, u, u);
  }

  ghost predicate HasNoCycle(g: Graph) {
    forall a :: !IsCyclic(g, a)
  }

  lemma NoCycleAtNodes(g: Graph)
    requires IsSimple(g)
    ensures HasNoCycle(g) <==> IsAcyclic(g)
  {
    if IsAcyclic(g) {
      forall a
        ensures !IsCyclic(g, a)
      {
        if IsCyclic(g, a) {
          var u, v :| IsNamed(g, u, a) && IsNamed(g, v, a) && ReachesByStep(g, Outgoing, u, v);
          CyclicAtNode(g, u);
        }
      }
    }
    if HasNoCycle(g) {
      forall u: nat
        ensures !IsOnCycle(g, u)
      {
        if IsOnCycle(g, u) {
          OnCycleIsNode(g, u);
          CyclicAtNode(g, u);
        }
      }
    }
  }

  // ----- removal -----

  /** An installed package outside `names` depends on `a`. */
  ghost predicate IsBlocked(g: Graph, names: set<string>, installed: set<string>, a: string) {
    exists q :: q in installed && q !in names && q != a && Depends(g, q, a)
  }

  /** With `removed` gone, nothing that stays installed depends on it, not even by way of others. */
  ghost predicate IsSafeRemoval(g: Graph, installed: set<string>, removed: set<string>) {
    forall q, r :: q in installed && q !in removed && r in removed ==> !Depends(g, q, r)
  }

  ghost function Unblocked(g: Graph, names: set<string>, installed: set<string>): set<string> {
    set a | a in names && !IsBlocked(g, names, installed, a)
  }

  /** The unblocked candidates can go all at once, in cyclic graphs too. */
  lemma UnblockedIsSafe(g: Graph, names: set<string>, installed: set<string>)
    requires IsSimple(g)
    ensures IsSafeRemoval(g, installed, Unblocked(g, names, installed))
  {
    var removed := Unblocked(g, names, installed);
    forall q, r | q in installed && q !in removed && r in removed
      ensures !Depends(g, q, r)
    {
      if Depends(g, q, r) {
        if q in names {
          var p :| p in installed && p !in names && p != q && Depends(g, p, q);
          DependsTransitive(g, p, q, r);
        }
        assert IsBlocked(g, names, installed, r);
      }
    }
  }

  /** No other safe choice among the candidates removes anything more. */
  lemma UnblockedIsGreatest(g: Graph, names: set<string>, installed: set<string>, choice: set<string>)
    requires choice <= names && IsSafeRemoval(g, installed, choice)
    ensures choice <= Unblocked(g, names, installed)
  {
  }

  /** The packages that depend on `a`, except `a` itself. */
  ghost predicate AreDependents(g: Graph, a: string, s: seq<string>) {
    IsDistinct(s) && forall b :: b in s <==> b != a && Depends(g, b, a)
  }

  /** Going backward from a node finds its dependents. */
  lemma BackwardReach(g: Graph, u: nat, v: nat)
    requires IsSimple(g) && IsNode(g, u) && IsNode(g, v) && u != v
    ensures Reaches(g, Incoming, u, v) <==> Depends(g, g.names[v], g.names[u])
  {
    DependsAtNodes(g, v, u);
    ReachesBack(g, Outgoing, v, u);
    if Reaches(g, Incoming, u, v) {
      var w :| Leads(g, Incoming, u, v, w);
      assert |w| >= 2;
    }
  }

  // ----- cycles -----

  /** The packages on cycles among the first `n` nodes. */
  ghost predicate AreCyclicBelow(g: Graph, n: nat, s: seq<string>) {
    forall a :: a in s <==> exists x: nat :: x < n && IsNamed(g, x, a) && IsOnCycle(g, x)
  }

  /** A node is on a cycle exactly when one of its successors leads back to it. */
  lemma CycleByNeighbors(g: Graph, u: nat, neighbors: seq<nat>)
    requires IsSimple(g) && IsNode(g, u) && neighbors == Neighbors(g, Outgoing, u)
    ensures IsOnCycle(g, u) <==> exists k :: 0 <= k < |neighbors| && Reaches(g, Outgoing, neighbors[k], u)
  {
    if IsOnCycle(g, u) {
      FirstStep(g, Outgoing, u, u);
      var x :| HasStep(g, Outgoing, u, x) && IsNode(g, x) && Reaches(g, Outgoing, x, u);
      assert x in neighbors;
    }
    if k :| 0 <= k < |neighbors| && Reaches(g, Outgoing, neighbors[k], u) {
      assert neighbors[k] in neighbors;
      StepThenReaches(g, Outgoing, u, neighbors[k], u);
    }
  }

  lemma OneMoreNode(g: Graph, u: nat, s: seq<string>, s': seq<string>)
    requires IsSimple(g) && IsNode(g, u) && AreCyclicBelow(g, u, s)
    requires s' == if IsOnCycle(g, u) then s + [g.names[u]] else s
    ensures AreCyclicBelow(g, u + 1, s')
  {
    forall a
      ensures a in s' <==> exists x: nat :: x < u + 1 && IsNamed(g, x, a) && IsOnCycle(g, x)
    {
      if a in s' {
        if a in s {
          var x: nat :| x < u && IsNamed(g, x, a) && IsOnCycle(g, x);
          assert x < u + 1;
        } else {
          assert IsNamed(g, u, a);
        }
      }
    }
  }

  lemma CyclicAreNamed(g: Graph, s: seq<string>)
    requires IsSimple(g) && AreCyclicBelow(g, |g.names|, s)
    ensures forall a :: a in s <==> IsCyclic(g, a)
  {
    forall a
      ensures a in s <==> IsCyclic(g, a)
    {
      if IsCyclic(g, a) {
        var u, v :| IsNamed(g, u, a) && IsNamed(g, v, a) && ReachesByStep(g, Outgoing, u, v);
        CyclicAtNode(g, u);
      }
      if a in s {
        var x: nat :| x < |g.names| && IsNamed(g, x, a) && IsOnCycle(g, x);
        CyclicAtNode(g, x);
      }
    }
  }

  // ----- from nodes to answers -----

  ghost function Strings(s: seq<string>): set<string> {
    set a | a in s
  }

  lemma DirectNames(g: Graph, u: nat, neighbors: seq<nat>, s: seq<string>)
    requires IsSimple(g) && IsNode(g, u) && neighbors == Neighbors(g, Outgoing, u)
    requires |s| == |neighbors| && forall i :: 0 <= i < |s| ==> IsNamed(g, neighbors[i], s[i])
    ensures IsDistinct(s)
    ensures forall b :: b in s <==> DependsDirectly(g, g.names[u], b)
  {
    EdgeNeighborsDistinct(g.edges, Outgoing, u);
    forall i, j | 0 <= i < j < |s|
      ensures s[i] != s[j]
    {
      assert neighbors[i] != neighbors[j];
    }
    forall b
      ensures b in s <==> DependsDirectly(g, g.names[u], b)
    {
      if b in s {
        var i :| 0 <= i < |s| && s[i] == b;
        assert neighbors[i] in neighbors;
        DependsAtNodes(g, u, neighbors[i]);
      }
      if DependsDirectly(g, g.names[u], b) {
        var x, v :| IsNamed(g, x, g.names[u]) && IsNamed(g, v, b) && HasEdge(g, x, v);
        NameIsNode(g, g.names[u], u, x);
        assert v in neighbors;
        var i :| 0 <= i < |neighbors| && neighbors[i] == v;
        assert IsNamed(g, neighbors[i], s[i]);
      }
    }
  }

  ghost predicate AreNamesOf(g: Graph, nodes: set<nat>, start: nat, s: seq<string>) {
    forall b :: b in s <==> exists u :: u in nodes && u != start && IsNamed(g, u, b)
  }

  lemma NoNames(g: Graph, start: nat)
    ensures IsDistinct<string>([]) && AreNamesOf(g, {}, start, [])
  {
  }

  lemma OneMoreName(g: Graph, nodes: set<nat>, start: nat, s: seq<string>, u: nat)
    requires IsSimple(g) && IsNode(g, u) && u !in nodes
    requires IsDistinct(s) && AreNamesOf(g, nodes, start, s)
    ensures var s' := if u != start then s + [g.names[u]] else s;
      IsDistinct(s') && AreNamesOf(g, nodes + {u}, start, s')
  {
    var s' := if u != start then s + [g.names[u]] else s;
    assert IsNamed(g, u, g.names[u]);
    forall b | b in s
      ensures exists x :: x in nodes + {u} && x != start && IsNamed(g, x, b)
    {
      var x :| x in nodes && x != start && IsNamed(g, x, b);
      assert x in nodes + {u};
    }
    if g.names[u] in s {
      var x :| x in nodes && x != start && IsNamed(g, x, g.names[u]);
      NameIsNode(g, g.names[u], u, x);
    }
  }

  lemma DependentNames(g: Graph, start: nat, visited: set<nat>, s: seq<string>)
    requires IsSimple(g) && IsNode(g, start)
    requires forall x :: x in visited + {start} <==> Reaches(g, Incoming, start, x)
    requires forall x :: x in visited ==> IsNode(g, x)
    requires AreNamesOf(g, visited, start, s)
    ensures forall b :: b in s <==> b != g.names[start] && Depends(g, b, g.names[start])
  {
    forall b
      ensures b in s <==> b != g.names[start] && Depends(g, b, g.names[start])
    {
      if b in s {
        var u :| u in visited && u != start && IsNamed(g, u, b);
        BackwardReach(g, start, u);
      }
      if b != g.names[start] && Depends(g, b, g.names[start]) {
        var u, v :| IsNamed(g, u, b) && IsNamed(g, v, g.names[start]) && ReachesByStep(g, Outgoing, u, v);
        BackwardReach(g, start, u);
        assert u in visited + {start};
      }
    }
  }

  // ----- install plans -----

  /** What the first loop of the plan collects: build orders, or the bare name where there is none. */
  ghost predicate IsCollected(g: Graph, names: seq<string>, b: string) {
    if HasNoCycle(g) then IsNeededFor(g, names, b) || (b in names && b !in g.names) else b in names
  }

  lemma CollectOne(g: Graph, names: seq<string>, i: nat)
    requires i < |names|
    ensures forall b :: IsCollected(g, names[..i + 1], b) <==>
              IsCollected(g, names[..i], b)
              || (if HasNoCycle(g) && names[i] in g.names then Needs(g, names[i], b) else b == names[i])
  {
    assert forall a :: a in names[..i + 1] <==> a in names[..i] || a == names[i];
  }

  /** `b` is needed for one of `names`. */
  ghost predicate IsNeededFor(g: Graph, names: seq<string>, b: string) {
    exists a :: a in names && Needs(g, a, b)
  }

  /** Everything that the known ones among `names` need, dependencies first, then the unknown ones. */
  ghost predicate IsInstallOrder(g: Graph, names: seq<string>, s: seq<string>) {
    && IsDistinct(s) && DependenciesFirst(g, s)
    && (forall b :: b in s <==> IsNeededFor(g, names, b) || (b in names && b !in g.names))
    && (forall i, j :: 0 <= i < j < |s| && s[i] !in g.names ==> s[j] !in g.names)
  }

  /** Unknown packages at the end depend on nothing. */
  lemma PlanIsOrder(g: Graph, names: seq<string>, known: seq<string>, s: seq<string>)
    requires IsDistinct(s) && known <= s && DependenciesFirst(g, known)
    requires forall b :: b in known <==> b in g.names && IsNeededFor(g, names, b)
    requires forall k :: |known| <= k < |s| ==> s[k] !in g.names
    requires forall a :: a in s <==> a in known || (a in names && a !in g.names)
    ensures IsInstallOrder(g, names, s)
  {
    assert forall k :: 0 <= k < |known| ==> s[k] == known[k] && s[k] in known;
    forall i, j | 0 <= i < |s| && 0 <= j < |s| && DependsDirectly(g, s[i], s[j])
      ensures j < i
    {
      assert s[i] in g.names && s[j] in g.names;
      assert known[i] == s[i] && known[j] == s[j];
    }
    forall b | IsNeededFor(g, names, b)
      ensures b in g.names
    {
      var a :| a in names && Needs(g, a, b);
      var v := NeedIsNamed(g, a, b);
    }
  }

  // ----- the class -----

  class DependencyGraph {
    var names: seq<string>
    var edges: seq<(nat, nat)>
    var index: map<string, nat>

    function View(): Graph
      reads this
    {
      Graph(names, edges)
    }

    /** The index is a bijection between names and nodes, and the graph is simple. */
    ghost predicate Valid()
      reads this
    {
      IsSimple(View()) && IsIndex(names, index)
    }

    constructor ()
      ensures Valid() && View() == Graph([], [])
    {
      names, edges, index := [], [], map[];
    }

    method AddPackage(name: string) returns (idx: nat)
      requires Valid()
      modifies this
      ensures Valid() && View() == WithPackage(old(View()), name)
      ensures IsNamed(View(), idx, name)
      ensures forall u, a :: IsNamed(old(View()), u, a) ==> IsNamed(View(), u, a)
    {
      if name in index {
        return index[name];
      }
      idx := |names|;
      names := names + [name];
      index := index[name := idx];
    }

    method AddDependency(source: string, target: string)
      requires Valid()
      modifies this
      ensures Valid() && AddsDependency(old(View()), View(), source, target)
    {
      ghost var before := View();
      var u := AddPackage(source);
      var v := AddPackage(target);
      AddEdge(u, v);
      EdgeIsDependency(before, View(), u, v);
    }

    /** Add an edge, unless it is there or would be a loop. */
    method AddEdge(u: nat, v: nat)
      requires Valid() && IsNode(View(), u) && IsNode(View(), v)
      modifies this`edges
      ensures Valid()
      ensures edges == old(edges) + if u != v && !HasEdge(old(View()), u, v) then [(u, v)] else []
    {
      if u != v && !HasEdge(View(), u, v) {
        edges := edges + [(u, v)];
      }
    }

    method Contains(name: string) returns (r: bool)
      requires Valid()
      ensures r <==> name in names
    {
      r := name in index;
    }

    /** Dependencies before dependents, or a package on a cycle. */
    method TopologicalSort() returns (r: Result<seq<string>, DepsError>)
      requires Valid()
      ensures r.Ok? <==> HasNoCycle(View())
      ensures r.Ok? ==> IsBuildSequence(View(), r.value)
      ensures r.Err? ==> r.error.CircularDependency? && IsCyclic(View(), r.error.cycle)
    {
      var topo := Toposort(View());
      SortedOrCyclic(View(), topo);
      NoCycleAtNodes(View());
      if topo.Err? {
        CyclicAtNode(View(), topo.error);
        return Err(CircularDependency(names[topo.error]));
      }
      ReversedTopological(View(), topo.value);
      AllInOrder(View(), Reversed(topo.value));
      r := Ok(NamesAt(View(), Reversed(topo.value)));
    }

    method HasCycle() returns (r: bool)
      requires Valid()
      ensures r <==> !HasNoCycle(View())
    {
      NoCycleAtNodes(View());
      r := IsCyclicDirected(View());
    }

    /** The packages on some cycle, once each. */
    method CyclePackages() returns (r: seq<string>)
      requires Valid()
      ensures IsDistinct(r) && forall a :: a in r <==> IsCyclic(View(), a)
    {
      hide Reaches, IsOnCycle, IsCyclic, Neighbors, HasStep;
      var cyclic := HasCycle();
      if !cyclic {
        return [];
      }
      r := [];
      for u := 0 to |names|
        invariant IsDistinct(r) && AreCyclicBelow(View(), u, r)
      {
        var neighbors := Neighbors(View(), Outgoing, u);
        NeighborsAreNodes(View(), Outgoing, u);
        ghost var found, before := false, r;
        assert names[u] !in r;
        for i := 0 to |neighbors|
          invariant found <==> exists k :: 0 <= k < i && Reaches(View(), Outgoing, neighbors[k], u)
          invariant r == if found then before + [names[u]] else before
        {
          assert neighbors[i] in neighbors;
          var path := HasPathConnecting(View(), neighbors[i], u);
          if path {
            if names[u] !in r {
              r := r + [names[u]];
            }
            found := true;
          }
        }
        CycleByNeighbors(View(), u, neighbors);
        OneMoreNode(View(), u, before, r);
      }
      CyclicAreNamed(View(), r);
    }

    /** Everything needed to build `name`, dependencies first. */
    method BuildOrder(name: string) returns (r: Result<seq<string>, DepsError>)
      requires Valid()
      ensures r.Ok? <==> name in names && HasNoCycle(View())
      ensures r.Ok? ==> IsBuildOrder(View(), name, r.value)
      ensures r.Err? ==>
                if name !in names then r.error == MissingDependency(name)
                else r.error.CircularDependency? && IsCyclic(View(), r.error.cycle)
    {
      if name !in index {
        return Err(MissingDependency(name));
      }
      var start := index[name];
      var visited, queue := {start}, [start];
      SearchBegins(View(), Outgoing, start);
      while queue != []
        invariant SearchInv(View(), Outgoing, start, visited, queue) && start in visited
        decreases |names| - |visited|, |queue|
      {
        ghost var before := visited;
        visited, queue := VisitNeighbors(View(), Outgoing, start, visited, queue);
        SearchTerminates(View(), Outgoing, start, before, visited, queue);
      }
      SearchEnds(View(), Outgoing, start, visited);
      assert visited + {start} == visited;

      var topo := Toposort(View());
      SortedOrCyclic(View(), topo);
      NoCycleAtNodes(View());
      if topo.Err? {
        CyclicAtNode(View(), topo.error);
        return Err(CircularDependency(names[topo.error]));
      }
      var order := Reversed(topo.value);
      ReversedTopological(View(), topo.value);
      ReachableInOrder(View(), order, start, visited);
      r := Ok(NamesAt(View(), Filter(order, visited)));
    }

    method DirectDependencies(name: string) returns (r: seq<string>)
      requires Valid()
      ensures IsDistinct(r) && forall b :: b in r <==> DependsDirectly(View(), name, b)
    {
      if name !in index {
        return [];
      }
      var u := index[name];
      var neighbors := Neighbors(View(), Outgoing, u);
      NeighborsAreNodes(View(), Outgoing, u);
      assert forall i :: 0 <= i < |neighbors| ==> neighbors[i] in neighbors;
      r := NamesAt(View(), neighbors);
      DirectNames(View(), u, neighbors, r);
    }

    /** All packages that depend on `name`, in any order. */
    method ReverseDependencies(name: string) returns (r: seq<string>)
      requires Valid()
      ensures AreDependents(View(), name, r)
    {
      if name !in index {
        return [];
      }
      var start := index[name];
      var visited, queue := {}, [start];
      SearchBegins(View(), Incoming, start);
      while queue != []
        invariant SearchInv(View(), Incoming, start, visited, queue)
        decreases |names| - |visited|, |queue|
      {
        ghost var before := visited;
        visited, queue := VisitNeighbors(View(), Incoming, start, visited, queue);
        SearchTerminates(View(), Incoming, start, before, visited, queue);
      }
      SearchEnds(View(), Incoming, start, visited);
      r := CollectNames(visited, start);
      DependentNames(View(), start, visited, r);
    }

    /** The names of the nodes found, the start left out. */
    method CollectNames(visited: set<nat>, start: nat) returns (r: seq<string>)
      requires Valid() && forall x :: x in visited ==> IsNode(View(), x)
      ensures IsDistinct(r) && AreNamesOf(View(), visited, start, r)
    {
      hide IsDistinct, AreNamesOf;
      r := [];
      var rest := visited;
      NoNames(View(), start);
      assert visited - rest == {};
      while rest != {}
        invariant rest <= visited
        invariant IsDistinct(r) && AreNamesOf(View(), visited - rest, start, r)
        decreases rest
      {
        var u :| u in rest;
        OneMoreName(View(), visited - rest, start, r, u);
        assert visited - (rest - {u}) == visited - rest + {u};
        rest := rest - {u};
        if u != start {
          r := r + [names[u]];
        }
      }
      assert visited - rest == visited;
    }

    /** Which of `candidates` nothing else installed depends on. */
    method Removable(candidates: seq<string>, installed: seq<string>) returns (r: seq<string>)
      requires Valid()
      ensures r == Filter(candidates, Unblocked(View(), Strings(candidates), Strings(installed)))
      ensures IsSafeRemoval(View(), Strings(installed), Strings(r))
    {
      var nameSet := set a | a in candidates;
      ghost var free := Unblocked(View(), nameSet, Strings(installed));
      r := [];
      for i := 0 to |candidates|
        invariant r == Filter(candidates[..i], free)
      {
        var name := candidates[i];
        var reverseDeps := ReverseDependencies(name);
        var blocked := exists dep :: dep in reverseDeps && dep in installed && dep !in nameSet;
        if !blocked {
          r := r + [name];
        }
        assert candidates[..i + 1][..i] == candidates[..i];
        assert name in candidates;
      }
      assert candidates[..|candidates|] == candidates;
      assert Strings(r) == free;
      UnblockedIsSafe(View(), nameSet, Strings(installed));
    }

    /** A plan to install `wanted` and what they need. */
    method ResolveInstallOrder(wanted: seq<string>) returns (r: seq<string>)
      requires Valid()
      ensures HasNoCycle(View()) ==> IsInstallOrder(View(), wanted, r)
      ensures !HasNoCycle(View()) ==> IsDistinct(r) && forall a :: a in r <==> a in wanted
    {
      var allDeps: set<string> := {};
      for i := 0 to |wanted|
        invariant forall b :: b in allDeps <==> IsCollected(View(), wanted[..i], b)
      {
        var order := BuildOrder(wanted[i]);
        if order.Ok? {
          allDeps := allDeps + set b | b in order.value;
        } else {
          allDeps := allDeps + {wanted[i]};
        }
        CollectOne(View(), wanted, i);
      }
      assert wanted[..|wanted|] == wanted;
      var topo := TopologicalSort();
      var all := if topo.Ok? then topo.value else names;
      r := Filter(all, allDeps);
      FilterDistinct(all, allDeps);
      if topo.Ok? {
        FilterDependenciesFirst(View(), all, allDeps);
      }
      ghost var known := r;
      for i := 0 to |wanted|
        invariant known <= r && IsDistinct(r)
        invariant forall k :: |known| <= k < |r| ==> r[k] !in names
        invariant forall a :: a in r <==> a in known || (a in wanted[..i] && a !in names)
      {
        if wanted[i] !in index && wanted[i] !in r {
          r := r + [wanted[i]];
        }
      }
      if topo.Ok? {
        PlanIsOrder(View(), wanted, known, r);
      }
    }
  }
}
