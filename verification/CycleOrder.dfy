/** The order of what is reported as cycles: of the groups, and of the members of each. */
module CycleOrder {
  import opened Circular
  import opened Cycles
  import opened Digraph
  import opened Ordering
  import opened Sequences
  import opened Tarjan
  import opened TarjanOrder
  import DF = DepthFirst

  // ----- any list of nodes and edges ---------------------------------------------------------------

  lemma ReportedAreComponents(nodes: seq<Node>, edges: seq<ComponentEdge>, g: seq<Node>)
    requires g in CyclesOf(nodes, edges)
    ensures g in Components(AdjacencyOf(edges), nodes) && IsClass(AdjacencyOf(edges), g)
  {
    hide IsClass, Components;
    var adj := AdjacencyOf(edges);
    GroupOrder();
    SortMembers(GroupLe, Retained(adj, Components(adj, nodes)), g);
    RetainedMembers(adj, Components(adj, nodes), g);
    ComponentsAreClasses(adj, nodes);
  }

  /** In a reported cycle, a listed node that none listed before it reaches stands last. */
  lemma FirstListedIsReportedLast(nodes: seq<Node>, edges: seq<ComponentEdge>, i: nat, g: seq<Node>)
    requires g in CyclesOf(nodes, edges) && i < |nodes| && nodes[i] in g
    requires forall j :: 0 <= j < i ==> !Reach(AdjacencyOf(edges), nodes[j], nodes[i])
    ensures g[|g| - 1] == nodes[i]
  {
    ReportedAreComponents(nodes, edges, g);
    FirstListedIsLast(AdjacencyOf(edges), nodes, i, g);
  }

  /** Longer cycles first; among equally long ones, the one whose first member's name comes first. */
  lemma LongestFirst(nodes: seq<Node>, edges: seq<ComponentEdge>, i: nat, j: nat)
    requires i < j < |CyclesOf(nodes, edges)|
    ensures var a, b := CyclesOf(nodes, edges)[i], CyclesOf(nodes, edges)[j];
      |a| >= 1 && |b| >= 1 && (|a| > |b| || (|a| == |b| && Precedes(a[0], b[0])))
  {
    var out := CyclesOf(nodes, edges);
    var a, b := out[i], out[j];
    CyclesAreExact(nodes, edges);
    hide CyclesOf;
    assert GroupLe(a, b);
    assert a[0] in a && a[0] !in b && b[0] in b;
    StringLeIff(a[0], b[0]);
  }

  // ----- the files of a dependency graph -----------------------------------------------------------

  lemma AscendingIsStrict(s: set<string>)
    ensures StrictlyAscending(Ascending(s))
  {
    StringOrder();
    var l := Ascending(s);
    SortSorts(StringLe, Listed(s));
    forall i, j | 0 <= i < j < |l| ensures l[i] != l[j] {
      if l[i] == l[j] {
        TwiceInBag(l, i, j);
        assert false;
      }
    }
  }

  lemma SameWalks(dep: DepGraph, excluded: EdgeSet)
    ensures var adj, g := AdjacencyOf(SortedEdges(dep, excluded)), RuntimeGraph(dep, excluded);
      && (forall u, w :: Reach(adj, u, w) <==> Reach(g, u, w))
      && (forall p, u, w :: Walk(adj, p, u, w) <==> Walk(g, p, u, w))
  {
    var adj, g := AdjacencyOf(SortedEdges(dep, excluded)), RuntimeGraph(dep, excluded);
    SortedEdgesExact(dep, excluded);
    hide SortedEdges, RuntimeGraph;
    forall p, u, w ensures Walk(adj, p, u, w) <==> Walk(g, p, u, w) {
      if Walk(adj, p, u, w) { WalkInSupergraph(adj, g, p, u, w); }
      if Walk(g, p, u, w) { WalkInSupergraph(g, adj, p, u, w); }
    }
    ReachInSupergraph(adj, g);
    ReachInSupergraph(g, adj);
  }

  /** Every file of a reported cycle is a file of the graph. */
  lemma ReportedAreFiles(dep: DepGraph, excluded: EdgeSet, g: seq<Node>, v: Node)
    requires g in CircularOf(dep, excluded) && v in g
    ensures v in Ascending(DepNodes(dep))
  {
    var edges := SortedEdges(dep, excluded);
    var adj := AdjacencyOf(edges);
    var out := CircularOf(dep, excluded);
    CyclesAreExact(Ascending(DepNodes(dep)), edges);
    hide SortedEdges;
    var i :| 0 <= i < |out| && out[i] == g;
    assert InSomeGroup(out, v);
    var y :| Edge(adj, v, y) && Reach(adj, y, v);
    SortedEdgesExact(dep, excluded);
    EdgesOfAdjacency(edges);
    assert Edge(dep, v, y);
    AscendingMembers(DepNodes(dep), v);
  }

  /** Which nodes the search meets first: a file that no file with a smaller name reaches stands last in its cycle. */
  lemma SmallestNameIsLast(dep: DepGraph, excluded: EdgeSet, g: seq<Node>, v: Node)
    requires g in CircularOf(dep, excluded) && v in g
    requires forall u :: u in DepNodes(dep) && Precedes(u, v) ==> !Reach(RuntimeGraph(dep, excluded), u, v)
    ensures g[|g| - 1] == v
  {
    var i := FirstName(dep, excluded, g, v);
    FirstListedIsReportedLast(Ascending(DepNodes(dep)), SortedEdges(dep, excluded), i, g);
  }

  lemma FirstName(dep: DepGraph, excluded: EdgeSet, g: seq<Node>, v: Node) returns (i: nat)
    requires g in CircularOf(dep, excluded) && v in g
    requires forall u :: u in DepNodes(dep) && Precedes(u, v) ==> !Reach(RuntimeGraph(dep, excluded), u, v)
    ensures i < |Ascending(DepNodes(dep))| && Ascending(DepNodes(dep))[i] == v
    ensures FirstToReach(AdjacencyOf(SortedEdges(dep, excluded)), Ascending(DepNodes(dep)), i)
  {
    var nodes := Ascending(DepNodes(dep));
    ReportedAreFiles(dep, excluded, g, v);
    AscendingIsStrict(DepNodes(dep));
    SameWalks(dep, excluded);
    hide SortedEdges, RuntimeGraph, CircularOf, Ascending, Precedes, DepNodes;
    i :| i < |nodes| && nodes[i] == v;
    forall j | 0 <= j < i ensures !Reach(AdjacencyOf(SortedEdges(dep, excluded)), nodes[j], v) {
      AscendingMembers(DepNodes(dep), nodes[j]);
      StringLeIff(nodes[j], v);
    }
  }

  /** In which order its imports are followed: in the cycle of such a file, a member that one of its kept targets leads
      to, not through the file itself, stands after each other member to which neither that target nor one with a
      smaller name leads. */
  lemma SmallerTargetsLater(
      dep: DepGraph, excluded: EdgeSet, g: seq<Node>, v: Node, t: Node, a: nat, b: nat)
    requires g in CircularOf(dep, excluded) && v in g
    requires forall u :: u in DepNodes(dep) && Precedes(u, v) ==> !Reach(RuntimeGraph(dep, excluded), u, v)
    requires Edge(RuntimeGraph(dep, excluded), v, t) && a < |g| && b < |g| && g[b] != v
    requires DF.Avoids(RuntimeGraph(dep, excluded), [v], t, g[a])
    requires forall u :: Edge(RuntimeGraph(dep, excluded), v, u) && (u == t || Precedes(u, t)) ==>
      !DF.Avoids(RuntimeGraph(dep, excluded), [v], u, g[b])
    ensures b < a
  {
    var edges, nodes := SortedEdges(dep, excluded), Ascending(DepNodes(dep));
    var adj, graph := AdjacencyOf(edges), RuntimeGraph(dep, excluded);
    var i := FirstName(dep, excluded, g, v);
    ReportedAreComponents(nodes, edges, g);
    SortedEdgesExact(dep, excluded);
    SortedTargets(dep, excluded, v);
    hide SortedEdges, RuntimeGraph, CircularOf, DF.Avoids, Precedes, FirstToReach, IsClass, Components, DepNodes;
    var ns := Neighbors(adj, v);
    assert Edge(adj, v, t);
    var k :| 0 <= k < |ns| && ns[k] == t;
    SameAvoids(dep, excluded, v, t, g[a]);
    forall j | 0 <= j <= k ensures !DF.Avoids(adj, [v], ns[j], g[b]) {
      UpToTarget(ns, j, k);
      assert Edge(adj, v, ns[j]);
      SameAvoids(dep, excluded, v, ns[j], g[b]);
    }
    EarlierEdgesLater(adj, nodes, i, g, k, a, b);
  }

  lemma UpToTarget(ns: seq<Node>, j: nat, k: nat)
    requires SortedBy(StringLe, ns) && j <= k < |ns|
    ensures ns[j] == ns[k] || Precedes(ns[j], ns[k])
  {
    StringLeIff(ns[j], ns[k]);
    assert j < k ==> StringLe(ns[j], ns[k]);
  }

  lemma SortedTargets(dep: DepGraph, excluded: EdgeSet, v: Node)
    ensures SortedBy(StringLe, Neighbors(AdjacencyOf(SortedEdges(dep, excluded)), v))
  {
    var edges := SortedEdges(dep, excluded);
    EdgeOrder();
    SortSorts(EdgeLe, EdgesInOrder(dep, excluded, Listed(dep.Keys)));
    hide SortedEdges;
    TargetsAscend(edges, v);
    assert Neighbors(AdjacencyOf(edges), v) == TargetsOf(edges, v);
  }

  lemma SameAvoids(dep: DepGraph, excluded: EdgeSet, v: Node, u: Node, w: Node)
    ensures DF.Avoids(AdjacencyOf(SortedEdges(dep, excluded)), [v], u, w)
       <==> DF.Avoids(RuntimeGraph(dep, excluded), [v], u, w)
  {
    SameWalks(dep, excluded);
    hide SortedEdges, RuntimeGraph, Walk;
    var adj, g := AdjacencyOf(SortedEdges(dep, excluded)), RuntimeGraph(dep, excluded);
    if DF.Avoids(adj, [v], u, w) {
      var p :| Walk(adj, p, u, w) && forall x :: x in p ==> x !in [v];
      assert Walk(g, p, u, w);
    }
    if DF.Avoids(g, [v], u, w) {
      var p :| Walk(g, p, u, w) && forall x :: x in p ==> x !in [v];
      assert Walk(adj, p, u, w);
    }
  }
}
