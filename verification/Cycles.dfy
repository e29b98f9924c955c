/** Cycles of a digraph: its nontrivial strong components, filtered and put in order. */
module Cycles {
  import opened Digraph
  import opened Ordering
  import opened Tarjan

  datatype ComponentEdge = ComponentEdge(source: Node, target: Node)

  // ----- adjacency -------------------------------------------------------------------------------

  /** The targets of the edges leaving `u`, in edge order. */
  function TargetsOf(edges: seq<ComponentEdge>, u: Node): seq<Node> {
    if edges == [] then []
    else
      var n := |edges| - 1;
      TargetsOf(edges[..n], u) + if edges[n].source == u then [edges[n].target] else []
  }

  /** The adjacency map lists each source's targets in edge order, and has no key without an edge. */
  ghost predicate IsAdjacency(edges: seq<ComponentEdge>, adj: Adjacency) {
    forall u {:trigger TargetsOf(edges, u)} {:trigger u in adj} ::
      Neighbors(adj, u) == TargetsOf(edges, u) && (u in adj <==> TargetsOf(edges, u) != [])
  }

  method BuildAdjacency(edges: seq<ComponentEdge>) returns (adj: Adjacency)
    ensures IsAdjacency(edges, adj)
  {
    adj := map[];
    for i := 0 to |edges|
      invariant IsAdjacency(edges[..i], adj)
    {
      var e := edges[i];
      assert edges[..i + 1][..i] == edges[..i];
      var entry := if e.source in adj then adj[e.source] else [];
      adj := adj[e.source := entry + [e.target]];
    }
    assert edges[..|edges|] == edges;
  }

  ghost function AdjacencyOf(edges: seq<ComponentEdge>): (adj: Adjacency)
    ensures IsAdjacency(edges, adj)
  {
    if edges == [] then map[]
    else
      var n := |edges| - 1;
      var adj, e := AdjacencyOf(edges[..n]), edges[n];
      adj[e.source := Neighbors(adj, e.source) + [e.target]]
  }

  lemma AdjacencyUnique(edges: seq<ComponentEdge>, adj: Adjacency)
    requires IsAdjacency(edges, adj)
    ensures adj == AdjacencyOf(edges)
  {
    forall u
      ensures u in adj <==> u in AdjacencyOf(edges)
      ensures Neighbors(adj, u) == Neighbors(AdjacencyOf(edges), u)
    {
      var t := TargetsOf(edges, u);
    }
  }

  lemma {:induction false} TargetsAreEdges(edges: seq<ComponentEdge>, u: Node, w: Node)
    ensures w in TargetsOf(edges, u) <==> ComponentEdge(u, w) in edges
  {
    if edges == [] {
    } else {
      var n := |edges| - 1;
      assert edges == edges[..n] + [edges[n]];
      TargetsAreEdges(edges[..n], u, w);
    }
  }

  lemma EdgesOfAdjacency(edges: seq<ComponentEdge>)
    ensures forall u, w :: Edge(AdjacencyOf(edges), u, w) <==> ComponentEdge(u, w) in edges
  {
    forall u, w
      ensures Edge(AdjacencyOf(edges), u, w) <==> ComponentEdge(u, w) in edges
    {
      TargetsAreEdges(edges, u, w);
    }
  }

  // ----- cycles ----------------------------------------------------------------------------------

  predicate IsCycle(adj: Adjacency, g: seq<Node>) {
    |g| >= 2 || (|g| == 1 && g[0] in Neighbors(adj, g[0]))
  }

  function Retained(adj: Adjacency, sccs: seq<seq<Node>>): seq<seq<Node>> {
    if sccs == [] then []
    else (if IsCycle(adj, sccs[0]) then [sccs[0]] else []) + Retained(adj, sccs[1..])
  }

  /** Larger groups first, then by first member. */
  predicate GroupLe(a: seq<Node>, b: seq<Node>) {
    |a| > |b| || (|a| == |b| && (a == [] || StringLe(a[0], b[0])))
  }

  lemma GroupOrder()
    ensures Total(GroupLe)
  {
    StringOrder();
  }

  ghost function CyclesOf(nodes: seq<Node>, edges: seq<ComponentEdge>): seq<seq<Node>> {
    var adj := AdjacencyOf(edges);
    Sort(GroupLe, Retained(adj, Components(adj, nodes)))
  }

  method Retain(adj: Adjacency, sccs: seq<seq<Node>>) returns (kept: seq<seq<Node>>)
    ensures kept == Retained(adj, sccs)
  {
    hide IsCycle;
    kept := [];
    for i := 0 to |sccs|
      invariant kept + Retained(adj, sccs[i..]) == Retained(adj, sccs)
    {
      assert sccs[i..][1..] == sccs[i + 1..];
      if IsCycle(adj, sccs[i]) {
        kept := kept + [sccs[i]];
      }
    }
  }

  method FindCycles(nodes: seq<Node>, edges: seq<ComponentEdge>) returns (cycles: seq<seq<Node>>)
    ensures cycles == CyclesOf(nodes, edges)
  {
    var adj := BuildAdjacency(edges);
    AdjacencyUnique(edges, adj);
    var sccs := FindComponents(nodes, adj);
    sccs := Retain(adj, sccs);
    cycles := Sort(GroupLe, sccs);
  }

  /** `x` lies on a walk of at least one edge from itself to itself. */
  ghost predicate OnClosedWalk(adj: Adjacency, x: Node) {
    exists y :: Edge(adj, x, y) && Reach(adj, y, x)
  }

  lemma FirstStep(adj: Adjacency, x: Node, y: Node)
    requires Reach(adj, x, y) && x != y
    ensures exists z :: Edge(adj, x, z) && Reach(adj, z, y)
  {
    var p :| Walk(adj, p, x, y);
    assert Walk(adj, p[1..], p[1], y);
    assert Edge(adj, x, p[1]) && Reach(adj, p[1], y);
  }

  /** A class passes the retain test exactly when its members lie on closed walks. */
  lemma CycleMeansClosedWalk(adj: Adjacency, g: seq<Node>, x: Node)
    requires IsClass(adj, g) && x in g
    ensures IsCycle(adj, g) <==> OnClosedWalk(adj, x)
  {
    var i :| 0 <= i < |g| && g[i] == x;
    if |g| >= 2 {
      var y := g[if i == 0 then 1 else 0];
      assert y in g && y != x;
      assert Mutual(adj, x, y);
      FirstStep(adj, x, y);
      var z :| Edge(adj, x, z) && Reach(adj, z, y);
      ReachTrans(adj, z, y, x);
    } else {
      ReachRefl(adj, x);
      if OnClosedWalk(adj, x) {
        var y :| Edge(adj, x, y) && Reach(adj, y, x);
        ReachEdge(adj, x, y);
        assert y in g;
      }
    }
  }

  lemma {:induction false} RetainedMembers(adj: Adjacency, sccs: seq<seq<Node>>, g: seq<Node>)
    ensures g in Retained(adj, sccs) <==> g in sccs && IsCycle(adj, g)
  {
    if sccs == [] {
    } else {
      RetainedMembers(adj, sccs[1..], g);
    }
  }

  /** Groups that share no member and are themselves non-empty. */
  ghost predicate Disjoint(groups: seq<seq<Node>>) {
    && (forall i :: 0 <= i < |groups| ==> groups[i] != [])
    && (forall i, j, x :: 0 <= i < j < |groups| && x in groups[i] ==> x !in groups[j])
  }

  lemma {:induction false} RetainedDisjoint(adj: Adjacency, sccs: seq<seq<Node>>)
    requires Disjoint(sccs)
    ensures Disjoint(Retained(adj, sccs))
  {
    if sccs == [] {
    } else {
      var rest := Retained(adj, sccs[1..]);
      RetainedDisjoint(adj, sccs[1..]);
      forall j, x | 0 <= j < |rest| && x in sccs[0]
        ensures x !in rest[j]
      {
        RetainedMembers(adj, sccs[1..], rest[j]);
      }
    }
  }

  lemma {:induction false} ListedOnce(groups: seq<seq<Node>>, g: seq<Node>)
    requires Disjoint(groups)
    ensures multiset(groups)[g] <= 1
  {
    if groups == [] {
    } else {
      assert groups == [groups[0]] + groups[1..];
      forall j | 1 <= j < |groups|
        ensures groups[j] != groups[0]
      {
        assert groups[0][0] in groups[0];
      }
      assert groups[0] !in groups[1..];
      assert Disjoint(groups[1..]);
      ListedOnce(groups[1..], g);
    }
  }

  lemma DisjointRearranged(a: seq<seq<Node>>, b: seq<seq<Node>>)
    requires Disjoint(a) && multiset(a) == multiset(b)
    ensures Disjoint(b)
  {
    assert forall i :: 0 <= i < |b| ==> b[i] in multiset(a);
    forall i, j, x | 0 <= i < j < |b| && x in b[i]
      ensures x !in b[j]
    {
      assert b[i] in multiset(a) && b[j] in multiset(a);
      if b[i] == b[j] {
        TwiceInBag(b, i, j);
        ListedOnce(a, b[i]);
        assert false;
      } else {
        var p :| 0 <= p < |a| && a[p] == b[i];
        var q :| 0 <= q < |a| && a[q] == b[j];
        assert p < q || q < p;
      }
    }
  }

  lemma DisjointIsStrict(groups: seq<seq<Node>>)
    requires Disjoint(groups)
    ensures Strict(GroupLe, groups)
  {
    StringOrder();
    forall a, b | a in groups && b in groups && GroupLe(a, b) && GroupLe(b, a)
      ensures a == b
    {
      var i :| 0 <= i < |groups| && groups[i] == a;
      var j :| 0 <= j < |groups| && groups[j] == b;
      assert a[0] == b[0] && a[0] in a && a[0] in b;
    }
  }

  ghost predicate InSomeGroup(groups: seq<seq<Node>>, x: Node) {
    exists i :: 0 <= i < |groups| && x in groups[i]
  }

  lemma ReportedIffOnClosedWalk(adj: Adjacency, sccs: seq<seq<Node>>, out: seq<seq<Node>>, x: Node)
    requires forall g :: g in out <==> g in sccs && IsCycle(adj, g)
    requires forall i :: 0 <= i < |sccs| ==> IsClass(adj, sccs[i])
    ensures InSomeGroup(out, x) <==> x in Members(sccs) && OnClosedWalk(adj, x)
  {
    if InSomeGroup(out, x) {
      var i :| 0 <= i < |out| && x in out[i];
      assert out[i] in out;
      var j :| 0 <= j < |sccs| && sccs[j] == out[i];
      CycleMeansClosedWalk(adj, sccs[j], x);
    }
    if x in Members(sccs) && OnClosedWalk(adj, x) {
      var j :| 0 <= j < |sccs| && x in sccs[j];
      CycleMeansClosedWalk(adj, sccs[j], x);
      assert sccs[j] in out;
    }
  }

  /** A node is reported exactly when it is reachable from a listed node and lies on a closed walk; every
      reported group is a whole mutual-reachability class; groups are disjoint; and they are listed
      larger first, then by first member, an order in which no other arrangement of them is sorted. */
  lemma CyclesAreExact(nodes: seq<Node>, edges: seq<ComponentEdge>)
    ensures var adj, out := AdjacencyOf(edges), CyclesOf(nodes, edges);
      && (forall x :: InSomeGroup(out, x) <==> FromRoots(adj, nodes, x) && OnClosedWalk(adj, x))
      && (forall g :: g in out ==> IsClass(adj, g) && IsCycle(adj, g))
      && Disjoint(out)
      && SortedBy(GroupLe, out)
      && (forall other :: SortedBy(GroupLe, other) && multiset(other) == multiset(out) ==> other == out)
  {
    var adj := AdjacencyOf(edges);
    var sccs := Components(adj, nodes);
    var kept, out := Retained(adj, sccs), CyclesOf(nodes, edges);
    ComponentsAreClasses(adj, nodes);
    RetainedDisjoint(adj, sccs);
    GroupOrder();
    SortSorts(GroupLe, kept);
    DisjointRearranged(kept, out);
    DisjointIsStrict(out);
    forall g
      ensures g in out <==> g in sccs && IsCycle(adj, g)
    {
      RetainedMembers(adj, sccs, g);
      assert g in out <==> g in multiset(out);
    }
    forall x
      ensures InSomeGroup(out, x) <==> FromRoots(adj, nodes, x) && OnClosedWalk(adj, x)
    {
      ReportedIffOnClosedWalk(adj, sccs, out, x);
    }
    forall other | SortedBy(GroupLe, other) && multiset(other) == multiset(out)
      ensures other == out
    {
      SortedUnique(GroupLe, out, other);
    }
  }
}
