/** Circular dependencies of a file-level dependency graph. The graph is a hash map with no iteration
    order of its own; the result is shown not to depend on any. */
module Circular {
  import opened Cycles
  import opened Digraph
  import opened Ordering
  import opened RepeatedEdges
  import opened Sequences
  import opened Tarjan

  type DepGraph = map<Node, seq<Node>>
  type EdgeSet = set<(Node, Node)>

  /** Source first, then target. */
  predicate EdgeLe(a: ComponentEdge, b: ComponentEdge) {
    if a.source != b.source then StringLe(a.source, b.source) else StringLe(a.target, b.target)
  }

  lemma EdgeOrder()
    ensures Total(EdgeLe)
    ensures forall a, b :: EdgeLe(a, b) && EdgeLe(b, a) ==> a == b
  {
    StringOrder();
  }

  // ----- nodes -----------------------------------------------------------------------------------

  function DepNodes(dep: DepGraph): set<Node> {
    dep.Keys + TargetsFrom(dep, dep.Keys)
  }

  function TargetsFrom(dep: DepGraph, froms: set<Node>): set<Node> {
    set from, to | from in froms && to in Neighbors(dep, from) :: to
  }

  // ----- edges -----------------------------------------------------------------------------------

  /** The edge is neither excluded nor a file's edge to itself. */
  predicate Runtime(excluded: EdgeSet, from: Node, to: Node) {
    (from, to) !in excluded && from != to
  }

  function KeptEdges(excluded: EdgeSet, from: Node, tos: seq<Node>): seq<ComponentEdge> {
    if tos == [] then []
    else
      var n := |tos| - 1;
      KeptEdges(excluded, from, tos[..n])
      + if Runtime(excluded, from, tos[n]) then [ComponentEdge(from, tos[n])] else []
  }

  /** The edges met when the map's keys are visited in `order`. */
  function EdgesInOrder(dep: DepGraph, excluded: EdgeSet, order: seq<Node>): seq<ComponentEdge> {
    if order == [] then []
    else
      var n := |order| - 1;
      EdgesInOrder(dep, excluded, order[..n]) + KeptEdges(excluded, order[n], Neighbors(dep, order[n]))
  }

  ghost function SortedEdges(dep: DepGraph, excluded: EdgeSet): seq<ComponentEdge> {
    Sort(EdgeLe, EdgesInOrder(dep, excluded, Listed(dep.Keys)))
  }

  ghost function CircularOf(dep: DepGraph, excluded: EdgeSet): seq<seq<Node>> {
    CyclesOf(Ascending(DepNodes(dep)), SortedEdges(dep, excluded))
  }

  lemma {:induction false} EdgesConcat(dep: DepGraph, excluded: EdgeSet, a: seq<Node>, b: seq<Node>)
    ensures EdgesInOrder(dep, excluded, a + b) == EdgesInOrder(dep, excluded, a) + EdgesInOrder(dep, excluded, b)
  {
    if b == [] {
      assert a + b == a;
    } else {
      var n := |b| - 1;
      assert (a + b)[..|a + b| - 1] == a + b[..n];
      EdgesConcat(dep, excluded, a, b[..n]);
    }
  }

  lemma EdgesPullOut(dep: DepGraph, excluded: EdgeSet, b: seq<Node>, i: nat)
    requires i < |b|
    ensures multiset(EdgesInOrder(dep, excluded, b))
         == multiset(EdgesInOrder(dep, excluded, b[..i] + b[i + 1..]))
            + multiset(KeptEdges(excluded, b[i], Neighbors(dep, b[i])))
  {
    assert b == b[..i + 1] + b[i + 1..];
    assert b[..i + 1][..i] == b[..i];
    EdgesConcat(dep, excluded, b[..i + 1], b[i + 1..]);
    EdgesConcat(dep, excluded, b[..i], b[i + 1..]);
  }

  /** Visiting the keys in another order meets the same edges. */
  lemma {:induction false} OrderKeepsEdges(dep: DepGraph, excluded: EdgeSet, a: seq<Node>, b: seq<Node>)
    requires multiset(a) == multiset(b)
    ensures multiset(EdgesInOrder(dep, excluded, a)) == multiset(EdgesInOrder(dep, excluded, b))
    decreases |a|
  {
    if a == [] {
      assert |multiset(b)| == |b|;
    } else {
      var n := |a| - 1;
      var i := DropLast(a, b);
      EdgesPullOut(dep, excluded, b, i);
      OrderKeepsEdges(dep, excluded, a[..n], b[..i] + b[i + 1..]);
    }
  }

  method AddTargets(excluded: EdgeSet, from: Node, tos: seq<Node>, nodeSet0: set<Node>, edges0: seq<ComponentEdge>)
    returns (nodeSet: set<Node>, edges: seq<ComponentEdge>)
    ensures nodeSet == nodeSet0 + SetOf(tos)
    ensures edges == edges0 + KeptEdges(excluded, from, tos)
  {
    nodeSet, edges := nodeSet0, edges0;
    for i := 0 to |tos|
      invariant nodeSet == nodeSet0 + SetOf(tos[..i])
      invariant edges == edges0 + KeptEdges(excluded, from, tos[..i])
    {
      var to := tos[i];
      assert tos[..i + 1] == tos[..i] + [to];
      assert tos[..i + 1][..i] == tos[..i];
      nodeSet := nodeSet + {to};
      if (from, to) in excluded {
        continue;
      }
      if from == to {
        continue;
      }
      edges := edges + [ComponentEdge(from, to)];
    }
    assert tos[..|tos|] == tos;
  }

  /** The nodes met when the map's keys are visited in `order`. */
  function NodesInOrder(dep: DepGraph, order: seq<Node>): set<Node> {
    if order == [] then {}
    else
      var n := |order| - 1;
      NodesInOrder(dep, order[..n]) + {order[n]} + SetOf(Neighbors(dep, order[n]))
  }

  lemma {:induction false} NodesMet(dep: DepGraph, order: seq<Node>, x: Node)
    ensures x in NodesInOrder(dep, order) <==> x in order || exists from :: from in order && x in Neighbors(dep, from)
  {
    if order == [] {
    } else {
      var n := |order| - 1;
      NodesMet(dep, order[..n], x);
      assert order == order[..n] + [order[n]];
    }
  }

  lemma AllNodesMet(dep: DepGraph, order: seq<Node>)
    requires multiset(order) == multiset(dep.Keys)
    ensures NodesInOrder(dep, order) == DepNodes(dep)
  {
    forall k
      ensures k in order <==> k in dep.Keys
    {
      assert k in multiset(order) <==> k in multiset(dep.Keys);
    }
    forall x
      ensures x in NodesInOrder(dep, order) <==> x in DepNodes(dep)
    {
      NodesMet(dep, order, x);
    }
  }

  /** Collects nodes and edges. The choice of the next key is arbitrary, as a hash map's is. */
  method Gather(dep: DepGraph, excluded: EdgeSet) returns (nodeSet: set<Node>, edges: seq<ComponentEdge>)
    ensures nodeSet == DepNodes(dep)
    ensures multiset(edges) == multiset(EdgesInOrder(dep, excluded, Listed(dep.Keys)))
  {
    nodeSet, edges := {}, [];
    var rest := dep.Keys;
    ghost var order: seq<Node> := [];
    while rest != {}
      invariant rest <= dep.Keys && multiset(order) + multiset(rest) == multiset(dep.Keys)
      invariant nodeSet == NodesInOrder(dep, order) && edges == EdgesInOrder(dep, excluded, order)
      decreases |rest|
    {
      var from :| from in rest;
      nodeSet, edges := AddTargets(excluded, from, dep[from], nodeSet + {from}, edges);
      assert (order + [from])[..|order|] == order;
      BagOfSet(rest, from);
      order, rest := order + [from], rest - {from};
    }
    AllNodesMet(dep, order);
    OrderKeepsEdges(dep, excluded, order, Listed(dep.Keys));
  }

  /** The file-level pass: the same list whatever order the map is visited in. */
  method CircularFromDepExcluding(dep: DepGraph, excluded: EdgeSet) returns (cycles: seq<seq<Node>>)
    ensures cycles == CircularOf(dep, excluded)
  {
    var nodeSet, edges := Gather(dep, excluded);
    EdgeOrder();
    SortCanonical(EdgeLe, edges, EdgesInOrder(dep, excluded, Listed(dep.Keys)));
    edges := Sort(EdgeLe, edges);
    var nodes := CollectAscending(nodeSet);
    cycles := FindCycles(nodes, edges);
  }

  /** No exclusion at all. */
  method CircularFromDep(dep: DepGraph) returns (cycles: seq<seq<Node>>)
    ensures cycles == CircularOf(dep, {})
  {
    cycles := CircularFromDepExcluding(dep, {});
  }

  // ----- what is reported ------------------------------------------------------------------------

  function RuntimeTargets(excluded: EdgeSet, from: Node, tos: seq<Node>): seq<Node> {
    if tos == [] then []
    else (if Runtime(excluded, from, tos[0]) then [tos[0]] else []) + RuntimeTargets(excluded, from, tos[1..])
  }

  /** The dependency graph without excluded edges and without edges from a file to itself. */
  function RuntimeGraph(dep: DepGraph, excluded: EdgeSet): Adjacency {
    map from | from in dep :: RuntimeTargets(excluded, from, dep[from])
  }

  lemma {:induction false} RuntimeTargetsExact(excluded: EdgeSet, from: Node, tos: seq<Node>, to: Node)
    ensures to in RuntimeTargets(excluded, from, tos) <==> to in tos && Runtime(excluded, from, to)
  {
    if tos == [] {
    } else {
      RuntimeTargetsExact(excluded, from, tos[1..], to);
    }
  }

  lemma RuntimeGraphEdges(dep: DepGraph, excluded: EdgeSet)
    ensures forall u, w :: Edge(RuntimeGraph(dep, excluded), u, w) <==> Edge(dep, u, w) && Runtime(excluded, u, w)
  {
    forall u, w
      ensures Edge(RuntimeGraph(dep, excluded), u, w) <==> Edge(dep, u, w) && Runtime(excluded, u, w)
    {
      RuntimeTargetsExact(excluded, u, Neighbors(dep, u), w);
    }
  }

  lemma {:induction false} KeptEdgesExact(excluded: EdgeSet, from: Node, tos: seq<Node>, e: ComponentEdge)
    ensures e in KeptEdges(excluded, from, tos) <==>
      e.source == from && e.target in tos && Runtime(excluded, from, e.target)
  {
    if tos == [] {
    } else {
      var n := |tos| - 1;
      assert tos == tos[..n] + [tos[n]];
      KeptEdgesExact(excluded, from, tos[..n], e);
    }
  }

  lemma {:induction false} EdgesInOrderExact(dep: DepGraph, excluded: EdgeSet, order: seq<Node>, u: Node, w: Node)
    ensures ComponentEdge(u, w) in EdgesInOrder(dep, excluded, order)
       <==> u in order && Edge(dep, u, w) && Runtime(excluded, u, w)
  {
    if order == [] {
    } else {
      var n := |order| - 1;
      assert order == order[..n] + [order[n]];
      EdgesInOrderExact(dep, excluded, order[..n], u, w);
      KeptEdgesExact(excluded, order[n], Neighbors(dep, order[n]), ComponentEdge(u, w));
    }
  }

  /** The edges handed to the cycle search are exactly the runtime edges. */
  lemma SortedEdgesExact(dep: DepGraph, excluded: EdgeSet)
    ensures forall u, w ::
      ComponentEdge(u, w) in SortedEdges(dep, excluded) <==> Edge(dep, u, w) && Runtime(excluded, u, w)
    ensures forall u, w ::
      Edge(AdjacencyOf(SortedEdges(dep, excluded)), u, w) <==> Edge(RuntimeGraph(dep, excluded), u, w)
  {
    EdgeOrder();
    var order := Listed(dep.Keys);
    forall u, w
      ensures ComponentEdge(u, w) in SortedEdges(dep, excluded) <==> Edge(dep, u, w) && Runtime(excluded, u, w)
    {
      SortMembers(EdgeLe, EdgesInOrder(dep, excluded, order), ComponentEdge(u, w));
      EdgesInOrderExact(dep, excluded, order, u, w);
      ListedMembers(dep.Keys, u);
    }
    EdgesOfAdjacency(SortedEdges(dep, excluded));
    RuntimeGraphEdges(dep, excluded);
  }

  ghost predicate Together(groups: seq<seq<Node>>, x: Node, y: Node) {
    exists i :: 0 <= i < |groups| && x in groups[i] && y in groups[i]
  }

  lemma MutualIsReported(dep: DepGraph, adj: Adjacency, x: Node, y: Node)
    requires forall u, w :: Edge(adj, u, w) ==> Edge(dep, u, w)
    requires x != y && Mutual(adj, x, y)
    ensures FromRoots(adj, Ascending(DepNodes(dep)), x) && OnClosedWalk(adj, x)
  {
    FirstStep(adj, x, y);
    var z :| Edge(adj, x, z) && Reach(adj, z, y);
    ReachTrans(adj, z, y, x);
    assert Edge(dep, x, z);
    AscendingMembers(DepNodes(dep), x);
    ReachRefl(adj, x);
  }

  /** Two files are in one group exactly when each reaches the other; a group is a whole class of at least
      two files, shares none with another, and the list is in order. */
  ghost predicate ReportsCycles(g: Adjacency, out: seq<seq<Node>>) {
    && (forall x, y :: x != y ==> (Together(out, x, y) <==> Mutual(g, x, y)))
    && (forall i :: 0 <= i < |out| ==> |out[i]| >= 2 && IsClass(g, out[i]))
    && Disjoint(out) && SortedBy(GroupLe, out)
  }

  lemma ClassesMoveAcross(adj: Adjacency, g: Adjacency, group: seq<Node>)
    requires forall u, w :: Edge(adj, u, w) <==> Edge(g, u, w)
    requires IsClass(adj, group)
    ensures IsClass(g, group)
  {
    ReachInSupergraph(adj, g);
    ReachInSupergraph(g, adj);
  }

  lemma GroupsArePairs(dep: DepGraph, adj: Adjacency, out: seq<seq<Node>>, x: Node, y: Node)
    requires forall u, w :: Edge(adj, u, w) ==> Edge(dep, u, w)
    requires forall i :: 0 <= i < |out| ==> IsClass(adj, out[i])
    requires FromRoots(adj, Ascending(DepNodes(dep)), x) && OnClosedWalk(adj, x) ==> InSomeGroup(out, x)
    requires x != y
    ensures Together(out, x, y) <==> Mutual(adj, x, y)
  {
    if Mutual(adj, x, y) {
      MutualIsReported(dep, adj, x, y);
      var i :| 0 <= i < |out| && x in out[i];
      assert y in out[i];
    }
  }

  /** What the file-level pass reports is exactly the cycles of the runtime graph. */
  lemma CircularIsRuntimeCycles(dep: DepGraph, excluded: EdgeSet)
    ensures ReportsCycles(RuntimeGraph(dep, excluded), CircularOf(dep, excluded))
  {
    var edges, nodes := SortedEdges(dep, excluded), Ascending(DepNodes(dep));
    CyclesAreExact(nodes, edges);
    SortedEdgesExact(dep, excluded);
    ExactMeansReported(dep, excluded, AdjacencyOf(edges), CyclesOf(nodes, edges));
  }

  lemma ExactMeansReported(dep: DepGraph, excluded: EdgeSet, adj: Adjacency, out: seq<seq<Node>>)
    requires forall u, w :: Edge(adj, u, w) <==> Edge(RuntimeGraph(dep, excluded), u, w)
    requires forall x :: InSomeGroup(out, x) <==> FromRoots(adj, Ascending(DepNodes(dep)), x) && OnClosedWalk(adj, x)
    requires forall g :: g in out ==> IsClass(adj, g) && IsCycle(adj, g)
    requires Disjoint(out) && SortedBy(GroupLe, out)
    ensures ReportsCycles(RuntimeGraph(dep, excluded), out)
  {
    var g := RuntimeGraph(dep, excluded);
    RuntimeGraphEdges(dep, excluded);
    forall i | 0 <= i < |out|
      ensures |out[i]| >= 2 && IsClass(g, out[i])
    {
      assert out[i] in out;
      ClassesMoveAcross(adj, g, out[i]);
      assert !Edge(adj, out[i][0], out[i][0]);
    }
    ReachInSupergraph(adj, g);
    ReachInSupergraph(g, adj);
    forall x, y | x != y
      ensures Together(out, x, y) <==> Mutual(g, x, y)
    {
      GroupsArePairs(dep, adj, out, x, y);
    }
  }

  ghost predicate WithinOneGroup(group: seq<Node>, groups: seq<seq<Node>>) {
    exists j :: 0 <= j < |groups| && forall x :: x in group ==> x in groups[j]
  }

  lemma FewerEdgesOnlySplit(g: Adjacency, small: seq<seq<Node>>, h: Adjacency, big: seq<seq<Node>>, i: nat)
    requires ReportsCycles(g, small) && ReportsCycles(h, big) && i < |small|
    requires forall u, w :: Reach(g, u, w) ==> Reach(h, u, w)
    ensures WithinOneGroup(small[i], big)
  {
    var group := small[i];
    var a, b := group[0], group[1];
    assert a in group && b in group && a != b;
    assert Together(big, a, b);
    var j :| 0 <= j < |big| && a in big[j] && b in big[j];
    forall x | x in group
      ensures x in big[j]
    {
      assert Mutual(g, a, x);
    }
  }

  lemma ExcludingMoreReachesLess(dep: DepGraph, fewer: EdgeSet, more: EdgeSet)
    requires fewer <= more
    ensures forall u, w :: Reach(RuntimeGraph(dep, more), u, w) ==> Reach(RuntimeGraph(dep, fewer), u, w)
  {
    RuntimeGraphEdges(dep, fewer);
    RuntimeGraphEdges(dep, more);
    ReachInSupergraph(RuntimeGraph(dep, more), RuntimeGraph(dep, fewer));
  }

  /** Excluding more edges only splits groups. */
  lemma ExcludingMoreOnlySplits(dep: DepGraph, fewer: EdgeSet, more: EdgeSet)
    requires fewer <= more
    ensures forall i :: 0 <= i < |CircularOf(dep, more)| ==>
      WithinOneGroup(CircularOf(dep, more)[i], CircularOf(dep, fewer))
  {
    hide CircularOf;
    CircularIsRuntimeCycles(dep, fewer);
    CircularIsRuntimeCycles(dep, more);
    ExcludingMoreReachesLess(dep, fewer, more);
    var small, big := CircularOf(dep, more), CircularOf(dep, fewer);
    forall i | 0 <= i < |small| ensures WithinOneGroup(small[i], big) {
      FewerEdgesOnlySplit(RuntimeGraph(dep, more), small, RuntimeGraph(dep, fewer), big, i);
    }
  }

  // ----- independence of order and repetition ----------------------------------------------------

  /** The two graphs have the same keys, and each key the same targets in any order and number. */
  ghost predicate SameTargets(a: DepGraph, b: DepGraph) {
    a.Keys == b.Keys && forall u, w :: Edge(a, u, w) <==> Edge(b, u, w)
  }

  ghost predicate StrictlyAscending(s: seq<Node>) {
    forall i, j :: 0 <= i < j < |s| ==> StringLe(s[i], s[j]) && s[i] != s[j]
  }

  lemma {:induction false} AscendingUnique(a: seq<Node>, b: seq<Node>)
    requires StrictlyAscending(a) && StrictlyAscending(b) && (forall x :: x in a <==> x in b)
    ensures a == b
  {
    assert a != [] ==> a[0] in a;
    assert b != [] ==> b[0] in b;
    if a == [] {
    } else {
      assert a[0] == b[0] by {
        StringOrder();
        var i :| 0 <= i < |b| && b[i] == a[0];
        var j :| 0 <= j < |a| && a[j] == b[0];
        assert StringLe(b[0], b[i]) && StringLe(a[0], a[j]);
      }
      assert a == [a[0]] + a[1..] && b == [b[0]] + b[1..];
      forall x
        ensures x in a[1..] <==> x in b[1..]
      {
        assert x in a[1..] <==> x in a && x != a[0];
        assert x in b[1..] <==> x in b && x != b[0];
      }
      AscendingUnique(a[1..], b[1..]);
    }
  }

  lemma {:induction false} FirstOccurrencesAscend(l: seq<Node>)
    requires SortedBy(StringLe, l)
    ensures StrictlyAscending(FirstOccurrences(l))
  {
    if l == [] {
    } else {
      hide StringLe, StrictlyAscending;
      var n := |l| - 1;
      FirstOccurrencesAscend(l[..n]);
      var r := FirstOccurrences(l[..n]);
      forall i | 0 <= i < |r|
        ensures StringLe(r[i], l[n])
      {
        assert r[i] in r && r[i] in l[..n];
        var k :| 0 <= k < n && l[k] == r[i];
      }
      if l[n] !in l[..n] {
        assert forall i :: 0 <= i < |r| ==> r[i] in r;
        AppendAscends(r, l[n]);
      }
    }
  }

  lemma AppendAscends(r: seq<Node>, x: Node)
    requires StrictlyAscending(r) && forall i :: 0 <= i < |r| ==> StringLe(r[i], x) && r[i] != x
    ensures StrictlyAscending(r + [x])
  {
    hide StringLe;
  }

  lemma {:induction false} TargetsAscend(edges: seq<ComponentEdge>, u: Node)
    requires SortedBy(EdgeLe, edges)
    ensures SortedBy(StringLe, TargetsOf(edges, u))
  {
    if edges == [] {
    } else {
      var n := |edges| - 1;
      TargetsAscend(edges[..n], u);
      var ts := TargetsOf(edges[..n], u);
      if edges[n].source == u {
        forall i | 0 <= i < |ts|
          ensures StringLe(ts[i], edges[n].target)
        {
          assert ts[i] in ts;
          TargetsAreEdges(edges[..n], u, ts[i]);
          var k :| 0 <= k < n && edges[k] == ComponentEdge(u, ts[i]);
          assert EdgeLe(edges[k], edges[n]);
        }
      }
    }
  }

  lemma SameEdgesSameList(a: seq<ComponentEdge>, b: seq<ComponentEdge>, u: Node)
    requires SortedBy(EdgeLe, a) && SortedBy(EdgeLe, b)
    requires forall w :: ComponentEdge(u, w) in a <==> ComponentEdge(u, w) in b
    ensures FirstOccurrences(TargetsOf(a, u)) == FirstOccurrences(TargetsOf(b, u))
    ensures TargetsOf(a, u) == [] <==> TargetsOf(b, u) == []
  {
    TargetsAscend(a, u);
    TargetsAscend(b, u);
    FirstOccurrencesAscend(TargetsOf(a, u));
    FirstOccurrencesAscend(TargetsOf(b, u));
    forall w
      ensures w in TargetsOf(a, u) <==> w in TargetsOf(b, u)
    {
      TargetsAreEdges(a, u, w);
      TargetsAreEdges(b, u, w);
    }
    AscendingUnique(FirstOccurrences(TargetsOf(a, u)), FirstOccurrences(TargetsOf(b, u)));
  }

  lemma WithoutRepeatsAt(edges: seq<ComponentEdge>, u: Node)
    ensures var adj := WithoutRepeats(AdjacencyOf(edges));
      (u in adj <==> TargetsOf(edges, u) != []) && (u in adj ==> adj[u] == FirstOccurrences(TargetsOf(edges, u)))
  {
  }

  lemma SameEdgesSameLists(a: seq<ComponentEdge>, b: seq<ComponentEdge>)
    requires SortedBy(EdgeLe, a) && SortedBy(EdgeLe, b)
    requires forall u, w :: ComponentEdge(u, w) in a <==> ComponentEdge(u, w) in b
    ensures WithoutRepeats(AdjacencyOf(a)) == WithoutRepeats(AdjacencyOf(b))
  {
    hide WithoutRepeats, AdjacencyOf, TargetsOf, FirstOccurrences, EdgeLe, StringLe;
    var x, y := WithoutRepeats(AdjacencyOf(a)), WithoutRepeats(AdjacencyOf(b));
    forall u
      ensures u in x <==> u in y
      ensures u in x && u in y ==> x[u] == y[u]
    {
      SameEdgesSameList(a, b, u);
      WithoutRepeatsAt(a, u);
      WithoutRepeatsAt(b, u);
    }
  }

  lemma {:induction false} SameEdgesRetainSame(a: Adjacency, b: Adjacency, sccs: seq<seq<Node>>)
    requires forall u, w :: Edge(a, u, w) <==> Edge(b, u, w)
    ensures Retained(a, sccs) == Retained(b, sccs)
  {
    if sccs == [] {
    } else {
      assert |sccs[0]| > 0 ==> (Edge(a, sccs[0][0], sccs[0][0]) <==> Edge(b, sccs[0][0], sccs[0][0]));
      SameEdgesRetainSame(a, b, sccs[1..]);
    }
  }

  lemma SameEdgesSameCycles(nodes: seq<Node>, a: seq<ComponentEdge>, b: seq<ComponentEdge>)
    requires SortedBy(EdgeLe, a) && SortedBy(EdgeLe, b)
    requires forall u, w :: ComponentEdge(u, w) in a <==> ComponentEdge(u, w) in b
    ensures CyclesOf(nodes, a) == CyclesOf(nodes, b)
  {
    SameEdgesSameLists(a, b);
    RepeatsDoNotMatter(AdjacencyOf(a), nodes);
    RepeatsDoNotMatter(AdjacencyOf(b), nodes);
    EdgesOfAdjacency(a);
    EdgesOfAdjacency(b);
    SameEdgesRetainSame(AdjacencyOf(a), AdjacencyOf(b), Components(AdjacencyOf(a), nodes));
  }

  lemma SameTargetsSameNodes(a: DepGraph, b: DepGraph)
    requires SameTargets(a, b)
    ensures DepNodes(a) == DepNodes(b)
  {
    forall x
      ensures x in TargetsFrom(a, a.Keys) <==> x in TargetsFrom(b, b.Keys)
    {
      if x in TargetsFrom(a, a.Keys) {
        var f :| f in a.Keys && x in Neighbors(a, f);
        assert Edge(a, f, x) && Edge(b, f, x);
      }
      if x in TargetsFrom(b, b.Keys) {
        var f :| f in b.Keys && x in Neighbors(b, f);
        assert Edge(b, f, x) && Edge(a, f, x);
      }
    }
  }

  /** Permuting or repeating targets leaves the reported list identical, groups and members in order. */
  lemma TargetOrderDoesNotMatter(a: DepGraph, b: DepGraph, excluded: EdgeSet)
    requires SameTargets(a, b)
    ensures CircularOf(a, excluded) == CircularOf(b, excluded)
  {
    EdgeOrder();
    SortedEdgesExact(a, excluded);
    SortedEdgesExact(b, excluded);
    SortSorts(EdgeLe, EdgesInOrder(a, excluded, Listed(a.Keys)));
    SortSorts(EdgeLe, EdgesInOrder(b, excluded, Listed(b.Keys)));
    SameTargetsSameNodes(a, b);
    SameEdgesSameCycles(Ascending(DepNodes(a)), SortedEdges(a, excluded), SortedEdges(b, excluded));
  }
}
