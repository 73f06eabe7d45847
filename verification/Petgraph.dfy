/**
 The graph algorithms that the dependency graph takes from its library, and the step that its own
 breadth-first searches share. Only what the algorithms promise is relied on elsewhere.
 */
module Petgraph {
  import opened Wrappers
  import opened Digraph

  // ----- neighbours -----

  function EdgeNeighbors(edges: seq<(nat, nat)>, dir: Direction, u: nat): (r: seq<nat>)
    ensures forall v :: v in r <==> (if dir.Outgoing? then (u, v) else (v, u)) in edges
  {
    if edges == [] then []
    else
      var e, rest := edges[|edges| - 1], EdgeNeighbors(edges[..|edges| - 1], dir, u);
      assert forall f :: f in edges <==> f == e || f in edges[..|edges| - 1];
      if dir.Outgoing? && e.0 == u then [e.1] + rest
      else if dir.Incoming? && e.1 == u then [e.0] + rest
      else rest
  }

  lemma {:induction false} EdgeNeighborsDistinct(edges: seq<(nat, nat)>, dir: Direction, u: nat)
    requires IsDistinct(edges)
    ensures IsDistinct(EdgeNeighbors(edges, dir, u))
  {
    if edges != [] {
      var e, init := edges[|edges| - 1], edges[..|edges| - 1];
      assert e !in init;
      EdgeNeighborsDistinct(init, dir, u);
    }
  }

  /** The edge added last comes first. */
  function Neighbors(g: Graph, dir: Direction, u: nat): (r: seq<nat>)
    ensures forall v :: v in r <==> HasStep(g, dir, u, v)
  {
    EdgeNeighbors(g.edges, dir, u)
  }

  lemma NeighborsAreNodes(g: Graph, dir: Direction, u: nat)
    requires IsSimple(g)
    ensures forall v :: v in Neighbors(g, dir, u) ==> IsNode(g, v)
  {
  }

  // ----- breadth-first search -----

  /** Everything seen is reachable, and only queued nodes can lead out of what is seen. */
  ghost predicate SearchInv(g: Graph, dir: Direction, start: nat, visited: set<nat>, queue: seq<nat>) {
    && (forall x :: x in visited || x in queue ==> IsNode(g, x) && Reaches(g, dir, start, x))
    && (forall u, v :: (u in visited || u == start) && u !in queue && HasStep(g, dir, u, v) && IsNode(g, v) ==>
          v in visited)
  }

  lemma SearchBegins(g: Graph, dir: Direction, start: nat)
    requires IsNode(g, start)
    ensures SearchInv(g, dir, start, {}, [start]) && SearchInv(g, dir, start, {start}, [start])
  {
    ReachesSelf(g, dir, start);
  }

  /** With an empty queue, the nodes seen are those that can be reached. */
  lemma SearchEnds(g: Graph, dir: Direction, start: nat, visited: set<nat>)
    requires IsNode(g, start) && SearchInv(g, dir, start, visited, [])
    ensures forall x :: x in visited + {start} <==> Reaches(g, dir, start, x)
  {
    ReachesSelf(g, dir, start);
    forall x | Reaches(g, dir, start, x)
      ensures x in visited + {start}
    {
      var w :| Leads(g, dir, start, x, w);
      ClosedHolds(g, dir, visited + {start}, w);
    }
  }

  /** How far a search has come: it sees more, or sees the same and has less left to look at. */
  ghost predicate Progress(visited: set<nat>, queue: seq<nat>, visited': set<nat>, queue': seq<nat>) {
    visited < visited' || (visited == visited' && |queue'| < |queue|)
  }

  /** `pop_front`, then queue every neighbour not seen before. */
  method VisitNeighbors(g: Graph, dir: Direction, ghost start: nat, visited: set<nat>, queue: seq<nat>)
      returns (visited': set<nat>, queue': seq<nat>)
    requires IsSimple(g) && queue != [] && SearchInv(g, dir, start, visited, queue)
    ensures SearchInv(g, dir, start, visited', queue')
    ensures Progress(visited, queue, visited', queue')
  {
    var node := queue[0];
    var neighbors := Neighbors(g, dir, node);
    visited', queue' := visited, queue[1..];
    assert queue == [node] + queue';
    for i := 0 to |neighbors|
      invariant visited <= visited' && (visited == visited' ==> queue' == queue[1..])
      invariant SearchInv(g, dir, start, visited', queue' + [node])
      invariant forall k :: 0 <= k < i ==> neighbors[k] in visited'
    {
      var v := neighbors[i];
      if v !in visited' {
        assert HasStep(g, dir, node, v) && node in queue' + [node];
        ReachesOn(g, dir, start, node, v);
        VisitOne(g, dir, start, visited', queue', node, v);
        visited', queue' := visited' + {v}, queue' + [v];
      }
    }
    Finished(g, dir, start, visited', queue', node);
  }

  lemma VisitOne(g: Graph, dir: Direction, start: nat, visited: set<nat>, queue: seq<nat>, node: nat, v: nat)
    requires SearchInv(g, dir, start, visited, queue + [node])
    requires IsNode(g, v) && Reaches(g, dir, start, v)
    ensures SearchInv(g, dir, start, visited + {v}, queue + [v] + [node])
  {
    var q, q' := queue + [node], queue + [v] + [node];
    assert forall x :: x in q' <==> x in q || x == v;
  }

  lemma Finished(g: Graph, dir: Direction, start: nat, visited: set<nat>, queue: seq<nat>, node: nat)
    requires SearchInv(g, dir, start, visited, queue + [node])
    requires forall v :: HasStep(g, dir, node, v) ==> v in visited
    ensures SearchInv(g, dir, start, visited, queue)
  {
    assert forall x :: x in queue + [node] <==> x in queue || x == node;
  }

  /** `has_path_connecting`. */
  method HasPathConnecting(g: Graph, source: nat, target: nat) returns (r: bool)
    requires IsSimple(g) && IsNode(g, source)
    ensures r <==> Reaches(g, Outgoing, source, target)
  {
    var visited, queue := {source}, [source];
    SearchBegins(g, Outgoing, source);
    while queue != []
      invariant SearchInv(g, Outgoing, source, visited, queue) && source in visited
      decreases |g.names| - |visited|, |queue|
    {
      ghost var before := visited;
      visited, queue := VisitNeighbors(g, Outgoing, source, visited, queue);
      SearchTerminates(g, Outgoing, source, before, visited, queue);
    }
    SearchEnds(g, Outgoing, source, visited);
    r := target in visited;
  }

  lemma SearchTerminates(g: Graph, dir: Direction, start: nat, before: set<nat>, visited: set<nat>, queue: seq<nat>)
    requires before <= visited && SearchInv(g, dir, start, visited, queue)
    ensures |visited| <= |g.names| && (before != visited ==> |before| < |visited|)
  {
    BelowCount(visited, |g.names|);
    assert visited == before + (visited - before);
    if before != visited {
      assert visited - before != {};
    }
  }

  // ----- topological sort -----

  /** `node` has a successor that is not placed yet. */
  predicate IsHeldUp(g: Graph, placed: set<nat>, node: nat) {
    exists v :: v in Neighbors(g, Outgoing, node) && v !in placed
  }

  /** The nodes placed so far, from the back: in topological order, and closed under successors. */
  ghost predicate PlacedInv(g: Graph, order: seq<nat>, placed: set<nat>) {
    && IsDistinct(order) && placed == Elements(order)
    && (forall u :: u in placed ==> IsNode(g, u))
    && (forall u, v :: u in placed && HasEdge(g, u, v) ==> v in placed)
    && IsForward(g, order)
  }

  lemma PlaceOne(g: Graph, order: seq<nat>, placed: set<nat>, u: nat)
    requires PlacedInv(g, order, placed) && IsNode(g, u) && u !in placed && !IsHeldUp(g, placed, u)
    ensures PlacedInv(g, [u] + order, placed + {u})
  {
    var order' := [u] + order;
    assert forall v :: v in order' <==> v == u || v in order;
    assert Elements(order') == placed + {u};
    assert forall v :: HasEdge(g, u, v) ==> v in Neighbors(g, Outgoing, u);
    forall i, j | 0 <= i < |order'| && 0 <= j < |order'| && HasEdge(g, order'[i], order'[j])
      ensures i < j
    {
      if i == 0 {
        assert order'[j] in placed;
      } else {
        assert order'[i] == order[i - 1] && order'[i] in placed;
        assert order'[j] in placed && j > 0;
        assert order'[j] == order[j - 1];
      }
    }
  }

  method NextHeldUp(g: Graph, placed: set<nat>, node: nat) returns (v: nat)
    requires IsSimple(g) && IsHeldUp(g, placed, node)
    ensures HasStep(g, Outgoing, node, v) && IsNode(g, v) && v !in placed
  {
    v :| v in Neighbors(g, Outgoing, node) && v !in placed;
  }

  /** When all are held up, following the nodes that hold up comes round to a node seen before. */
  method FindCycle(g: Graph, placed: set<nat>, first: nat) returns (c: nat)
    requires IsSimple(g) && IsNode(g, first) && first !in placed
    requires forall u :: IsNode(g, u) && u !in placed ==> IsHeldUp(g, placed, u)
    ensures IsOnCycle(g, c)
  {
    hide IsHeldUp, IsSimple;
    var w := [first];
    while true
      invariant IsWalk(g, Outgoing, w) && IsDistinct(w) && w[|w| - 1] !in placed
      invariant |w| <= |g.names|
      decreases |g.names| - |w|
    {
      var v := NextHeldUp(g, placed, w[|w| - 1]);
      if v in w {
        ClosesCycle(g, w, v);
        return v;
      }
      ExtendsWalk(g, w, v);
      w := w + [v];
    }
  }

  lemma ClosesCycle(g: Graph, w: seq<nat>, v: nat)
    requires IsWalk(g, Outgoing, w) && HasStep(g, Outgoing, w[|w| - 1], v) && v in w
    ensures IsOnCycle(g, v)
  {
    var i :| 0 <= i < |w| && w[i] == v;
    assert Leads(g, Outgoing, v, v, w[i..] + [v]);
  }

  lemma ExtendsWalk(g: Graph, w: seq<nat>, v: nat)
    requires IsWalk(g, Outgoing, w) && IsDistinct(w) && HasStep(g, Outgoing, w[|w| - 1], v)
    requires v !in w && IsNode(g, v)
    ensures IsWalk(g, Outgoing, w + [v]) && IsDistinct(w + [v]) && |w + [v]| <= |g.names|
  {
    DistinctBound(w + [v], |g.names|);
  }

  /** `toposort`: successors come after the nodes they succeed, or else there is a cycle through the node named. */
  method Toposort(g: Graph) returns (r: Result<seq<nat>, nat>)
    requires IsSimple(g)
    ensures r.Ok? ==> IsTopological(g, r.value)
    ensures r.Err? ==> IsOnCycle(g, r.error) && IsNode(g, r.error)
  {
    hide IsHeldUp, IsSimple, PlacedInv, IsTopological, Neighbors;
    var order: seq<nat>, placed: set<nat> := [], {};
    NothingPlaced(g);
    while |order| < |g.names|
      invariant PlacedInv(g, order, placed)
      decreases |g.names| - |order|
    {
      var u := 0;
      while u < |g.names| && (u in placed || IsHeldUp(g, placed, u))
        invariant 0 <= u <= |g.names|
        invariant forall x: nat :: x < u ==> x in placed || IsHeldUp(g, placed, x)
      {
        u := u + 1;
      }
      if u == |g.names| {
        OneIsLeft(g, order, placed);
        var first :| 0 <= first < |g.names| && first !in placed;
        var c := FindCycle(g, placed, first);
        OnCycleIsNode(g, c);
        return Err(c);
      }
      PlaceOne(g, order, placed, u);
      order, placed := [u] + order, placed + {u};
    }
    AllArePlaced(g, order, placed);
    r := Ok(order);
  }

  lemma NothingPlaced(g: Graph)
    ensures PlacedInv(g, [], {})
  {
  }

  lemma OneIsLeft(g: Graph, order: seq<nat>, placed: set<nat>)
    requires PlacedInv(g, order, placed) && |order| < |g.names|
    ensures exists u: nat :: u < |g.names| && u !in placed
  {
    DistinctCount(order);
    FullWhenLong(placed, |g.names|);
  }

  lemma AllArePlaced(g: Graph, order: seq<nat>, placed: set<nat>)
    requires PlacedInv(g, order, placed) && |order| >= |g.names|
    ensures IsTopological(g, order)
  {
    DistinctCount(order);
    BelowCount(placed, |g.names|);
    FullWhenLong(placed, |g.names|);
    assert forall u :: u in order <==> u in placed;
  }

  lemma OnCycleIsNode(g: Graph, c: nat)
    requires IsOnCycle(g, c)
    ensures IsNode(g, c)
  {
    var w :| Leads(g, Outgoing, c, c, w) && |w| >= 2;
  }

  /** Sorting succeeds on the graphs without a cycle and on no others. */
  lemma SortedOrCyclic(g: Graph, r: Result<seq<nat>, nat>)
    requires r.Ok? ==> IsTopological(g, r.value)
    requires r.Err? ==> IsOnCycle(g, r.error)
    ensures r.Ok? <==> IsAcyclic(g)
  {
    if r.Ok? {
      TopologicalIsAcyclic(g, r.value);
    }
  }

  /** `is_cyclic_directed`. */
  method IsCyclicDirected(g: Graph) returns (cyclic: bool)
    requires IsSimple(g)
    ensures cyclic <==> !IsAcyclic(g)
  {
    var r := Toposort(g);
    SortedOrCyclic(g, r);
    cyclic := r.Err?;
  }
}
