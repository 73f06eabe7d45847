/** Directed graphs with named nodes, walks in them, and what it means to have no cycle. */
module Digraph {
  /** Nodes are the indices of `names`; `edges` lists the edges in the order they were added. */
  datatype Graph = Graph(names: seq<string>, edges: seq<(nat, nat)>)

  datatype Direction = Outgoing | Incoming

  predicate IsNode(g: Graph, u: nat) {
    u < |g.names|
  }

  predicate HasEdge(g: Graph, u: nat, v: nat) {
    (u, v) in g.edges
  }

  /** The edges followed in a direction. */
  predicate HasStep(g: Graph, dir: Direction, u: nat, v: nat) {
    match dir
    case Outgoing => HasEdge(g, u, v)
    case Incoming => HasEdge(g, v, u)
  }

  predicate IsDistinct<T(==)>(s: seq<T>) {
    forall i, j :: 0 <= i < j < |s| ==> s[i] != s[j]
  }

  /** Names are unique, and there are neither parallel edges nor self-loops. */
  predicate IsSimple(g: Graph) {
    && IsDistinct(g.names)
    && IsDistinct(g.edges)
    && forall e :: e in g.edges ==> IsNode(g, e.0) && IsNode(g, e.1) && e.0 != e.1
  }

  // ----- walks -----

  ghost predicate IsWalk(g: Graph, dir: Direction, w: seq<nat>) {
    && w != []
    && (forall i :: 0 <= i < |w| ==> IsNode(g, w[i]))
    && forall i :: 0 <= i < |w| - 1 ==> HasStep(g, dir, w[i], w[i + 1])
  }

  ghost predicate Leads(g: Graph, dir: Direction, u: nat, v: nat, w: seq<nat>) {
    IsWalk(g, dir, w) && w[0] == u && w[|w| - 1] == v
  }

  /** There is a walk from `u` to `v`, possibly without a step. */
  ghost predicate Reaches(g: Graph, dir: Direction, u: nat, v: nat) {
    exists w :: Leads(g, dir, u, v, w)
  }

  /** There is a walk of at least one step. */
  ghost predicate ReachesByStep(g: Graph, dir: Direction, u: nat, v: nat) {
    exists w :: Leads(g, dir, u, v, w) && |w| >= 2
  }

  ghost predicate IsOnCycle(g: Graph, u: nat) {
    ReachesByStep(g, Outgoing, u, u)
  }

  ghost predicate IsAcyclic(g: Graph) {
    forall u :: !IsOnCycle(g, u)
  }

  lemma ReachesSelf(g: Graph, dir: Direction, u: nat)
    requires IsNode(g, u)
    ensures Reaches(g, dir, u, u)
  {
    assert Leads(g, dir, u, u, [u]);
  }

  lemma ReachesOn(g: Graph, dir: Direction, u: nat, v: nat, x: nat)
    requires Reaches(g, dir, u, v) && HasStep(g, dir, v, x) && IsNode(g, x)
    ensures ReachesByStep(g, dir, u, x) && Reaches(g, dir, u, x)
  {
    var w :| Leads(g, dir, u, v, w);
    assert Leads(g, dir, u, x, w + [x]);
  }

  lemma StepThenReaches(g: Graph, dir: Direction, u: nat, v: nat, x: nat)
    requires HasStep(g, dir, u, v) && IsNode(g, u) && Reaches(g, dir, v, x)
    ensures ReachesByStep(g, dir, u, x)
  {
    var w :| Leads(g, dir, v, x, w);
    assert Leads(g, dir, u, x, [u] + w);
  }

  lemma ReachesTransitive(g: Graph, dir: Direction, u: nat, v: nat, x: nat)
    requires Reaches(g, dir, u, v) && Reaches(g, dir, v, x)
    ensures Reaches(g, dir, u, x)
    ensures ReachesByStep(g, dir, u, v) || ReachesByStep(g, dir, v, x) ==> ReachesByStep(g, dir, u, x)
  {
    var a :| Leads(g, dir, u, v, a) && (ReachesByStep(g, dir, u, v) ==> |a| >= 2);
    var b :| Leads(g, dir, v, x, b) && (ReachesByStep(g, dir, v, x) ==> |b| >= 2);
    var w := a + b[1..];
    forall i | 0 <= i < |w| - 1
      ensures HasStep(g, dir, w[i], w[i + 1])
    {
      if i >= |a| - 1 {
        assert w[i] == b[i - |a| + 1] && w[i + 1] == b[i - |a| + 2];
      }
    }
    assert Leads(g, dir, u, x, w);
  }

  function Opposite(dir: Direction): Direction {
    match dir
    case Outgoing => Incoming
    case Incoming => Outgoing
  }

  function Reversed(w: seq<nat>): (r: seq<nat>)
    ensures |r| == |w|
    ensures forall i :: 0 <= i < |w| ==> r[i] == w[|w| - 1 - i]
  {
    seq(|w|, i requires 0 <= i < |w| => w[|w| - 1 - i])
  }

  /** Walking backwards along a walk. */
  lemma WalkBack(g: Graph, dir: Direction, u: nat, v: nat, w: seq<nat>)
    requires Leads(g, dir, u, v, w)
    ensures Leads(g, Opposite(dir), v, u, Reversed(w))
  {
    var r := Reversed(w);
    forall i | 0 <= i < |r| - 1
      ensures HasStep(g, Opposite(dir), r[i], r[i + 1])
    {
      assert HasStep(g, dir, w[|w| - 2 - i], w[|w| - 1 - i]);
    }
  }

  lemma ReachesBack(g: Graph, dir: Direction, u: nat, v: nat)
    ensures ReachesByStep(g, dir, u, v) <==> ReachesByStep(g, Opposite(dir), v, u)
  {
    if w :| Leads(g, dir, u, v, w) && |w| >= 2 {
      WalkBack(g, dir, u, v, w);
    }
    if w :| Leads(g, Opposite(dir), v, u, w) && |w| >= 2 {
      WalkBack(g, Opposite(dir), v, u, w);
    }
  }

  /** A set closed under steps that holds the start of a walk holds its end. */
  lemma {:induction false} ClosedHolds(g: Graph, dir: Direction, s: set<nat>, w: seq<nat>)
    requires IsWalk(g, dir, w) && w[0] in s
    requires forall u, v :: u in s && IsNode(g, v) && HasStep(g, dir, u, v) ==> v in s
    ensures w[|w| - 1] in s
  {
    if |w| > 1 {
      assert HasStep(g, dir, w[0], w[1]);
      ClosedHolds(g, dir, s, w[1..]);
    }
  }

  /** A walk of at least one step takes a first step. */
  lemma FirstStep(g: Graph, dir: Direction, u: nat, v: nat)
    requires ReachesByStep(g, dir, u, v)
    ensures exists x :: HasStep(g, dir, u, x) && IsNode(g, x) && Reaches(g, dir, x, v)
  {
    var w :| Leads(g, dir, u, v, w) && |w| >= 2;
    assert HasStep(g, dir, w[0], w[1]);
    assert Leads(g, dir, w[1], v, w[1..]);
  }

  // ----- topological orders -----

  /** All nodes, once each. */
  ghost predicate ListsAllNodes(g: Graph, order: seq<nat>) {
    IsDistinct(order) && forall u :: u in order <==> IsNode(g, u)
  }

  /** Edges lead from earlier to later positions. */
  ghost predicate IsForward(g: Graph, order: seq<nat>) {
    forall i, j :: 0 <= i < |order| && 0 <= j < |order| && HasEdge(g, order[i], order[j]) ==> i < j
  }

  ghost predicate IsTopological(g: Graph, order: seq<nat>) {
    ListsAllNodes(g, order) && IsForward(g, order)
  }

  /** Edges do not lead out of the list. */
  ghost predicate IsClosed(g: Graph, order: seq<nat>) {
    forall u, v :: u in order && IsNode(g, v) && HasEdge(g, u, v) ==> v in order
  }

  /** Edges lead from later to earlier positions: what a node leads to comes first. */
  ghost predicate IsBackward(g: Graph, order: seq<nat>) {
    forall i, j :: 0 <= i < |order| && 0 <= j < |order| && HasEdge(g, order[i], order[j]) ==> j < i
  }

  lemma ReversedTopological(g: Graph, order: seq<nat>)
    requires IsTopological(g, order)
    ensures var r := Reversed(order);
      ListsAllNodes(g, r) && IsBackward(g, r) && IsClosed(g, r)
  {
    var r := Reversed(order);
    forall i, j | 0 <= i < |r| && 0 <= j < |r| && HasEdge(g, r[i], r[j])
      ensures j < i
    {
      assert HasEdge(g, order[|order| - 1 - i], order[|order| - 1 - j]);
    }
    forall i, j | 0 <= i < j < |r|
      ensures r[i] != r[j]
    {
      assert order[|order| - 1 - j] != order[|order| - 1 - i];
    }
    forall u
      ensures u in r <==> u in order
    {
      if u in order {
        var i :| 0 <= i < |order| && order[i] == u;
        assert r[|order| - 1 - i] == u;
      }
    }
  }

  lemma {:induction false} WalkDescends(g: Graph, order: seq<nat>, w: seq<nat>, i: nat, j: nat)
    requires IsBackward(g, order) && IsClosed(g, order) && IsDistinct(order) && IsWalk(g, Outgoing, w)
    requires i < |order| && order[i] == w[0]
    requires j < |order| && order[j] == w[|w| - 1]
    ensures j <= i && (|w| >= 2 ==> j < i)
    decreases |w|
  {
    if |w| >= 2 {
      assert HasStep(g, Outgoing, w[0], w[1]);
      var k :| 0 <= k < |order| && order[k] == w[1];
      WalkDescends(g, order, w[1..], k, j);
    }
  }

  /** A graph that can be put in topological order has no cycle. */
  lemma TopologicalIsAcyclic(g: Graph, order: seq<nat>)
    requires IsTopological(g, order)
    ensures IsAcyclic(g)
  {
    var r := Reversed(order);
    ReversedTopological(g, order);
    forall u
      ensures !IsOnCycle(g, u)
    {
      if w :| Leads(g, Outgoing, u, u, w) && |w| >= 2 {
        var i :| 0 <= i < |r| && r[i] == u;
        WalkDescends(g, r, w, i, i);
      }
    }
  }

  // ----- counting nodes -----

  lemma {:induction false} BelowCount(s: set<nat>, n: nat)
    requires forall x :: x in s ==> x < n
    ensures |s| <= n
  {
    if n == 0 {
      assert s == {};
    } else {
      BelowCount(s - {n - 1}, n - 1);
      assert |s - {n - 1}| >= |s| - 1;
    }
  }

  ghost function Elements(s: seq<nat>): set<nat> {
    set x | x in s
  }

  lemma {:induction false} DistinctCount(s: seq<nat>)
    requires IsDistinct(s)
    ensures |Elements(s)| == |s|
  {
    if s == [] {
      assert Elements(s) == {};
    } else {
      var last, rest := s[|s| - 1], s[..|s| - 1];
      DistinctCount(rest);
      assert forall x :: x in s <==> x in rest || x == last;
      assert Elements(s) == Elements(rest) + {last};
      assert last !in rest;
    }
  }

  lemma DistinctBound(s: seq<nat>, n: nat)
    requires IsDistinct(s) && forall x :: x in s ==> x < n
    ensures |s| <= n
  {
    DistinctCount(s);
    BelowCount(Elements(s), n);
  }

  /** Nodes listed without repetition are all listed when there are as many as the graph has. */
  lemma {:induction false} FullWhenLong(s: set<nat>, n: nat)
    requires forall x :: x in s ==> x < n
    ensures |s| == n <==> forall x: nat :: x < n ==> x in s
  {
    BelowCount(s, n);
    if n == 0 {
      assert s == {};
    } else {
      var rest := s - {n - 1};
      FullWhenLong(rest, n - 1);
      BelowCount(rest, n - 1);
      if n - 1 in s {
        assert |rest| == |s| - 1;
        if forall x: nat :: x < n - 1 ==> x in rest {
          assert forall x: nat :: x < n ==> x in s;
        }
      } else {
        assert rest == s;
      }
    }
  }
}
