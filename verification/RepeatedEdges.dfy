/** Repeating a neighbor changes nothing: the search over an adjacency map and over the same map with
    every repeated neighbor dropped produce the identical component list, member order included. */
module RepeatedEdges {
  import opened Digraph
  import opened Sequences
  import opened Tarjan
  import opened TarjanOrder
  import DF = DepthFirst

  /** `l` without the elements that already occurred. */
  function FirstOccurrences(l: seq<Node>): (r: seq<Node>)
    ensures forall x :: x in r <==> x in l
    ensures |r| <= |l| && (r == [] <==> l == [])
  {
    if l == [] then []
    else
      var n := |l| - 1;
      assert l == l[..n] + [l[n]];
      var r := FirstOccurrences(l[..n]);
      if l[n] in l[..n] then r else r + [l[n]]
  }

  function WithoutRepeats(adj: Adjacency): Adjacency {
    map v | v in adj :: FirstOccurrences(adj[v])
  }

  lemma NeighborsWithoutRepeats(adj: Adjacency, v: Node)
    ensures Neighbors(WithoutRepeats(adj), v) == FirstOccurrences(Neighbors(adj, v))
  {
  }

  // ----- one step of the machine -----------------------------------------------------------------

  /** The next edge of the top node repeats an earlier one. */
  predicate Repeats(adj: Adjacency, s: State)
    requires s.work != [] && Top(s).next < |Neighbors(adj, Top(s).node)|
  {
    var ns, i := Neighbors(adj, Top(s).node), Top(s).next;
    ns[i] in ns[..i]
  }

  /** Following a repeated edge leaves everything but the edge position unchanged. */
  lemma RepeatIsHarmless(adj: Adjacency, nodes: seq<Node>, s: State)
    requires Live(adj, nodes, s) && s.work != [] && Numbered(s)
    requires Top(s).next < |Neighbors(adj, Top(s).node)| && Repeats(adj, s)
    ensures Scan(adj, s) == s.(work := s.work[|s.work| - 1 := Frame(Top(s).node, Top(s).next + 1)])
  {
    var n, v := |s.work| - 1, Top(s).node;
    var w := Neighbors(adj, v)[Top(s).next];
    assert Scanned(adj, s, v, w) by {
      forall k | 0 <= k < |s.work| && s.work[k].node == v
        ensures k == n
      {
        assert Num(s, k) == Num(s, n);
      }
    }
    if w in s.onStack {
      assert InSegment(s, n, v);
      assert s.lowlink[v] <= s.indexMap[w];
    }
  }

  // ----- the whole search ------------------------------------------------------------------------

  lemma SameEdges(adj: Adjacency)
    ensures var other := WithoutRepeats(adj);
      && (forall u, w :: Edge(adj, u, w) <==> Edge(other, u, w))
      && (forall u, w :: Mutual(adj, u, w) <==> Mutual(other, u, w))
  {
    var other := WithoutRepeats(adj);
    forall u, w ensures Edge(adj, u, w) <==> Edge(other, u, w) {
      NeighborsWithoutRepeats(adj, u);
    }
    hide WithoutRepeats;
    ReachInSupergraph(adj, other);
    ReachInSupergraph(other, adj);
  }

  lemma {:induction false} SameClassOf(adj: Adjacency, order: seq<Node>, v: Node)
    ensures DF.ClassOf(WithoutRepeats(adj), order, v) == DF.ClassOf(adj, order, v)
  {
    SameEdges(adj);
    hide Mutual, WithoutRepeats;
    if order == [] {
    } else {
      SameClassOf(adj, order[..|order| - 1], v);
    }
  }

  lemma SameClose(adj: Adjacency, s: DF.Search, v: Node)
    ensures DF.Close(WithoutRepeats(adj), s, v) == DF.Close(adj, s, v)
  {
    SameEdges(adj);
    SameClassOf(adj, s.order, v);
    hide Mutual, WithoutRepeats, DF.ClassOf;
  }

  lemma OccurrencesWithin(todo: seq<Node>, all: set<Node>)
    requires SetOf(todo) <= all
    ensures SetOf(FirstOccurrences(todo)) <= all
  {
  }

  /** Exploring a node again changes nothing, so dropping repeats from a list does not. */
  lemma {:induction false} ExploreOnce(adj: Adjacency, all: set<Node>, todo: seq<Node>, s: DF.Search)
    requires EdgeClosed(adj, all) && SetOf(todo) <= all
    ensures SetOf(FirstOccurrences(todo)) <= all
    ensures DF.Explore(adj, all, FirstOccurrences(todo), s) == DF.Explore(adj, all, todo, s)
    decreases |todo|
  {
    hide DF.Explore, DF.Visit, EdgeClosed;
    OccurrencesWithin(todo, all);
    if todo == [] {
    } else {
      var n := |todo| - 1;
      var front, x := todo[..n], todo[n];
      assert todo == front + [x] && x in SetOf(todo);
      assert SetOf(front) <= SetOf(todo);
      ExploreOnce(adj, all, front, s);
      ExploreLast(adj, all, front, x, s);
      if x in front {
        DF.ExploreCovers(adj, all, front, s);
        VisitAgain(adj, all, x, DF.Explore(adj, all, front, s));
      } else {
        assert FirstOccurrences(todo) == FirstOccurrences(front) + [x];
        ExploreLast(adj, all, FirstOccurrences(front), x, s);
      }
    }
  }

  lemma ExploreLast(adj: Adjacency, all: set<Node>, front: seq<Node>, x: Node, s: DF.Search)
    requires EdgeClosed(adj, all) && SetOf(front) <= all && x in all
    ensures SetOf(front + [x]) <= all
    ensures DF.Explore(adj, all, front + [x], s) == DF.Visit(adj, all, x, DF.Explore(adj, all, front, s))
  {
    hide DF.Explore, DF.Visit;
    var t := DF.Explore(adj, all, front, s);
    assert [x][1..] == [];
    DF.ExploreConcat(adj, all, front, [x], s);
    DF.ExploreStep(adj, all, [x], t);
    DF.ExploreNothing(adj, all, DF.Visit(adj, all, x, t));
  }

  lemma VisitAgain(adj: Adjacency, all: set<Node>, x: Node, s: DF.Search)
    requires EdgeClosed(adj, all) && x in all && x in s.order
    ensures DF.Visit(adj, all, x, s) == s
  {
  }

  lemma {:induction false} ExploreWithoutRepeats(adj: Adjacency, all: set<Node>, todo: seq<Node>, s: DF.Search)
    requires EdgeClosed(adj, all) && EdgeClosed(WithoutRepeats(adj), all) && SetOf(todo) <= all
    ensures DF.Explore(adj, all, todo, s) == DF.Explore(WithoutRepeats(adj), all, todo, s)
    decreases all - SetOf(s.order), |todo|
  {
    hide DF.Explore, DF.Visit, WithoutRepeats, EdgeClosed;
    if todo == [] {
      DF.ExploreNothing(adj, all, s);
      DF.ExploreNothing(WithoutRepeats(adj), all, s);
    } else {
      DF.ExploreStep(adj, all, todo, s);
      DF.ExploreStep(WithoutRepeats(adj), all, todo, s);
      VisitWithoutRepeats(adj, all, todo[0], s);
      var t := DF.Visit(adj, all, todo[0], s);
      DF.SeesLess(all, s.order, t.order);
      ExploreWithoutRepeats(adj, all, todo[1..], t);
    }
  }

  lemma VisitWithoutRepeats(adj: Adjacency, all: set<Node>, x: Node, s: DF.Search)
    requires EdgeClosed(adj, all) && EdgeClosed(WithoutRepeats(adj), all) && x in all
    ensures DF.Visit(adj, all, x, s) == DF.Visit(WithoutRepeats(adj), all, x, s)
    decreases all - SetOf(s.order), 0
  {
    hide DF.Explore, DF.Close, WithoutRepeats, EdgeClosed;
    if x in s.order {
      VisitAgain(adj, all, x, s);
      VisitAgain(WithoutRepeats(adj), all, x, s);
    } else {
      var ns, t := Neighbors(adj, x), DF.Enter(s, x);
      DF.EntersLess(all, s, x);
      DF.NeighborsWithin(adj, all, x);
      NeighborsWithoutRepeats(adj, x);
      ExploreWithoutRepeats(adj, all, ns, t);
      ExploreOnce(WithoutRepeats(adj), all, ns, t);
      SameClose(adj, DF.Explore(adj, all, ns, t), x);
    }
  }

  /** The component list, group order and member order included, ignores repeated neighbors. */
  lemma RepeatsDoNotMatter(adj: Adjacency, nodes: seq<Node>)
    ensures Components(adj, nodes) == Components(WithoutRepeats(adj), nodes)
  {
    var other, all := WithoutRepeats(adj), Universe(adj, nodes);
    UniverseIsClosed(adj, nodes);
    SameEdges(adj);
    hide WithoutRepeats, DF.Explore, Components, Universe;
    ComponentsAreExplored(adj, all, nodes);
    ComponentsAreExplored(other, all, nodes);
    ExploreWithoutRepeats(adj, all, nodes, DF.NOTHING);
  }
}
