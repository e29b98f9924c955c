/** Depth-first search written as a recursion: the order in which it discovers nodes, and the classes of mutual
    reachability in the order in which it completes them. */
module DepthFirst {
  import opened Digraph
  import opened Sequences

  /** The nodes discovered so far, and the classes completed. */
  datatype Search = Search(order: seq<Node>, groups: seq<seq<Node>>)

  const NOTHING := Search([], [])

  /** No member of its class was discovered before `v`. */
  ghost predicate Earliest(adj: Adjacency, order: seq<Node>, v: Node) {
    forall i, j :: 0 <= i < j < |order| && order[j] == v ==> !Mutual(adj, v, order[i])
  }

  /** The members of the class of `v`, the latest discovered first. */
  ghost function ClassOf(adj: Adjacency, order: seq<Node>, v: Node): seq<Node> {
    if order == [] then []
    else
      var n := |order| - 1;
      (if Mutual(adj, v, order[n]) then [order[n]] else []) + ClassOf(adj, order[..n], v)
  }

  /** When the last edge of `v` is done, its class is complete if it was the first of it. */
  ghost function Close(adj: Adjacency, s: Search, v: Node): Search {
    if Earliest(adj, s.order, v) then s.(groups := s.groups + [ClassOf(adj, s.order, v)]) else s
  }

  /** Visits the nodes of `todo` in their order. */
  ghost function Explore(adj: Adjacency, all: set<Node>, todo: seq<Node>, s: Search): (t: Search)
    requires EdgeClosed(adj, all) && SetOf(todo) <= all
    ensures s.order <= t.order && s.groups <= t.groups
    decreases all - SetOf(s.order), |todo|
  {
    if todo == [] then s
    else
      assert todo[0] in SetOf(todo) && SetOf(todo[1..]) <= SetOf(todo);
      var t := Visit(adj, all, todo[0], s);
      SeesLess(all, s.order, t.order);
      Explore(adj, all, todo[1..], t)
  }

  /** Visits a node, unless it was discovered before, and all its neighbors. */
  ghost function Visit(adj: Adjacency, all: set<Node>, v: Node, s: Search): (t: Search)
    requires EdgeClosed(adj, all) && v in all
    ensures s.order <= t.order && s.groups <= t.groups
    decreases all - SetOf(s.order), 0
  {
    if v in s.order then s
    else
      EntersLess(all, s, v);
      NeighborsWithin(adj, all, v);
      Close(adj, Explore(adj, all, Neighbors(adj, v), Enter(s, v)), v)
  }

  function Enter(s: Search, v: Node): Search {
    s.(order := s.order + [v])
  }

  lemma EntersLess(all: set<Node>, s: Search, v: Node)
    requires v in all && v !in s.order
    ensures all - SetOf(Enter(s, v).order) < all - SetOf(s.order)
  {
    assert v in Enter(s, v).order && v !in SetOf(s.order);
    assert SetOf(Enter(s, v).order) == SetOf(s.order) + {v};
  }

  lemma SeesLess(all: set<Node>, a: seq<Node>, b: seq<Node>)
    requires a <= b
    ensures all - SetOf(b) <= all - SetOf(a)
  {
    assert forall x :: x in a ==> x in b;
  }

  lemma NeighborsWithin(adj: Adjacency, all: set<Node>, v: Node)
    requires EdgeClosed(adj, all) && v in all
    ensures SetOf(Neighbors(adj, v)) <= all
  {
    assert forall w :: w in SetOf(Neighbors(adj, v)) ==> Edge(adj, v, w);
  }

  lemma ExploreStep(adj: Adjacency, all: set<Node>, todo: seq<Node>, s: Search)
    requires EdgeClosed(adj, all) && SetOf(todo) <= all && todo != []
    ensures todo[0] in all && SetOf(todo[1..]) <= all
    ensures Explore(adj, all, todo, s) == Explore(adj, all, todo[1..], Visit(adj, all, todo[0], s))
  {
    hide Visit;
    assert todo[0] in SetOf(todo) && SetOf(todo[1..]) <= SetOf(todo);
  }

  lemma ExploreNothing(adj: Adjacency, all: set<Node>, s: Search)
    requires EdgeClosed(adj, all)
    ensures SetOf([]) <= all && Explore(adj, all, [], s) == s
  {
  }

  lemma {:induction false} ExploreConcat(adj: Adjacency, all: set<Node>, a: seq<Node>, b: seq<Node>, s: Search)
    requires EdgeClosed(adj, all) && SetOf(a) <= all && SetOf(b) <= all
    ensures SetOf(a + b) <= all
    ensures Explore(adj, all, a + b, s) == Explore(adj, all, b, Explore(adj, all, a, s))
    decreases |a|
  {
    hide Visit, Explore;
    assert SetOf(a + b) == SetOf(a) + SetOf(b);
    if a == [] {
      assert a + b == b;
      ExploreNothing(adj, all, s);
    } else {
      ExploreStep(adj, all, a, s);
      ExploreStep(adj, all, a + b, s);
      assert (a + b)[1..] == a[1..] + b;
      ExploreConcat(adj, all, a[1..], b, Visit(adj, all, a[0], s));
    }
  }

  // ----- what is discovered ------------------------------------------------------------------------

  /** `w` can be reached from `u` without meeting `seen`. */
  ghost predicate Avoids(adj: Adjacency, seen: seq<Node>, u: Node, w: Node) {
    exists p :: Walk(adj, p, u, w) && forall x :: x in p ==> x !in seen
  }

  /** `w` can be reached so from one of `todo`. */
  ghost predicate FoundFrom(adj: Adjacency, seen: seq<Node>, todo: seq<Node>, w: Node) {
    exists k :: 0 <= k < |todo| && Avoids(adj, seen, todo[k], w)
  }

  lemma AvoidsMore(adj: Adjacency, seen: seq<Node>, more: seq<Node>, u: Node, w: Node)
    requires Avoids(adj, more, u, w) && forall x :: x in seen ==> x in more
    ensures Avoids(adj, seen, u, w)
  {
    var p :| Walk(adj, p, u, w) && forall x :: x in p ==> x !in more;
    assert forall x :: x in p ==> x !in seen;
  }

  lemma AvoidsEdge(adj: Adjacency, seen: seq<Node>, v: Node, u: Node, w: Node)
    requires v !in seen && Edge(adj, v, u) && Avoids(adj, seen, u, w)
    ensures Avoids(adj, seen, v, w)
  {
    var p :| Walk(adj, p, u, w) && forall x :: x in p ==> x !in seen;
    assert ([v] + p)[1..] == p;
    assert Walk(adj, [v] + p, v, w);
    assert forall x :: x in [v] + p ==> x !in seen;
  }

  lemma AvoidsSelf(adj: Adjacency, seen: seq<Node>, v: Node)
    requires v !in seen
    ensures Avoids(adj, seen, v, v)
  {
    assert Walk(adj, [v], v, v);
  }

  lemma AvoidsReaches(adj: Adjacency, seen: seq<Node>, u: Node, w: Node)
    requires Avoids(adj, seen, u, w)
    ensures Reach(adj, u, w) && u !in seen && w !in seen
  {
    var p :| Walk(adj, p, u, w) && forall x :: x in p ==> x !in seen;
    assert p[0] in p;
    WalkEndsIn(adj, p, u, w);
  }

  lemma {:induction false} WalkEndsIn(adj: Adjacency, p: seq<Node>, u: Node, w: Node)
    requires Walk(adj, p, u, w)
    ensures w in p
  {
    if |p| == 1 {
    } else {
      WalkEndsIn(adj, p[1..], p[1], w);
    }
  }

  /** What is discovered was discovered before, or is reached from `todo` without meeting what was. */
  lemma {:induction false} OnlyReached(adj: Adjacency, all: set<Node>, todo: seq<Node>, s: Search, x: Node)
    requires EdgeClosed(adj, all) && SetOf(todo) <= all && x in Explore(adj, all, todo, s).order && x !in s.order
    ensures FoundFrom(adj, s.order, todo, x)
    decreases all - SetOf(s.order), |todo|
  {
    hide Avoids, Close;
    if todo == [] {
    } else {
      assert todo[0] in SetOf(todo);
      var v := todo[0];
      ExploreStep(adj, all, todo, s);
      var t := Visit(adj, all, v, s);
      if x in t.order {
        VisitedReached(adj, all, v, s, x);
      } else {
        SeesLess(all, s.order, t.order);
        OnlyReached(adj, all, todo[1..], t, x);
        var k :| 0 <= k < |todo[1..]| && Avoids(adj, t.order, todo[1..][k], x);
        AvoidsMore(adj, s.order, t.order, todo[k + 1], x);
      }
    }
  }

  lemma VisitedReached(adj: Adjacency, all: set<Node>, v: Node, s: Search, x: Node)
    requires EdgeClosed(adj, all) && v in all && x in Visit(adj, all, v, s).order && x !in s.order
    ensures Avoids(adj, s.order, v, x)
    decreases all - SetOf(s.order), 0
  {
    hide Avoids;
    NeighborsWithin(adj, all, v);
    EntersLess(all, s, v);
    if x == v {
      AvoidsSelf(adj, s.order, v);
    } else {
      var ns, t := Neighbors(adj, v), Enter(s, v);
      OnlyReached(adj, all, ns, t, x);
      var k :| 0 <= k < |ns| && Avoids(adj, t.order, ns[k], x);
      AvoidsMore(adj, s.order, t.order, ns[k], x);
      AvoidsEdge(adj, s.order, v, ns[k], x);
    }
  }

  /** Every node of `todo`, and every neighbor of a node discovered on the way, is discovered. */
  ghost predicate Covers(adj: Adjacency, seen: seq<Node>, todo: seq<Node>, order: seq<Node>) {
    && (forall x :: x in todo ==> x in order)
    && (forall x, y {:trigger Edge(adj, x, y)} :: x in order && x !in seen && Edge(adj, x, y) ==> y in order)
  }

  lemma {:induction false} ExploreCovers(adj: Adjacency, all: set<Node>, todo: seq<Node>, s: Search)
    requires EdgeClosed(adj, all) && SetOf(todo) <= all
    ensures Covers(adj, s.order, todo, Explore(adj, all, todo, s).order)
    decreases all - SetOf(s.order), |todo|
  {
    hide Close;
    if todo == [] {
    } else {
      assert todo[0] in SetOf(todo);
      var v := todo[0];
      ExploreStep(adj, all, todo, s);
      hide Explore;
      var t := Visit(adj, all, v, s);
      VisitCovers(adj, all, v, s);
      SeesLess(all, s.order, t.order);
      ExploreCovers(adj, all, todo[1..], t);
      hide Visit;
      CoversOneMore(adj, s.order, todo, t.order, Explore(adj, all, todo[1..], t).order);
    }
  }

  lemma CoversOneMore(adj: Adjacency, seen: seq<Node>, todo: seq<Node>, order: seq<Node>, end: seq<Node>)
    requires todo != [] && order <= end && Covers(adj, seen, [todo[0]], order) && Covers(adj, order, todo[1..], end)
    ensures Covers(adj, seen, todo, end)
  {
    assert todo[0] in [todo[0]];
    assert forall x :: x in todo ==> x == todo[0] || x in todo[1..];
    forall x, y | x in end && x !in seen && Edge(adj, x, y) ensures y in end {
      if x in order { assert y in order; }
    }
  }

  lemma VisitCovers(adj: Adjacency, all: set<Node>, v: Node, s: Search)
    requires EdgeClosed(adj, all) && v in all
    ensures Covers(adj, s.order, [v], Visit(adj, all, v, s).order)
    decreases all - SetOf(s.order), 0
  {
    if v in s.order {
    } else {
      NeighborsWithin(adj, all, v);
      EntersLess(all, s, v);
      var ns, t := Neighbors(adj, v), Enter(s, v);
      ExploreCovers(adj, all, ns, t);
      var order := Explore(adj, all, ns, t).order;
      assert Visit(adj, all, v, s).order == order;
      assert v in t.order && t.order <= order;
      forall x, y | x in order && x !in s.order && Edge(adj, x, y) ensures y in order {
        if x == v { assert y in ns; } else { assert x !in t.order; }
      }
    }
  }

  lemma {:induction false} WalkIsCovered(
      adj: Adjacency, seen: seq<Node>, todo: seq<Node>, order: seq<Node>, p: seq<Node>, u: Node, w: Node)
    requires Covers(adj, seen, todo, order) && u in order && Walk(adj, p, u, w) && forall x :: x in p ==> x !in seen
    ensures w in order
  {
    if |p| == 1 {
    } else {
      assert p[0] in p && p[1] in p;
      WalkIsCovered(adj, seen, todo, order, p[1..], p[1], w);
    }
  }

  /** Exploring discovers exactly what can be reached from `todo` without meeting what was discovered before. */
  lemma ExploreFinds(adj: Adjacency, all: set<Node>, todo: seq<Node>, s: Search, x: Node)
    requires EdgeClosed(adj, all) && SetOf(todo) <= all
    ensures x in Explore(adj, all, todo, s).order <==> x in s.order || FoundFrom(adj, s.order, todo, x)
  {
    var t := Explore(adj, all, todo, s);
    if x in t.order && x !in s.order { OnlyReached(adj, all, todo, s, x); }
    if FoundFrom(adj, s.order, todo, x) {
      ExploreCovers(adj, all, todo, s);
      var k :| 0 <= k < |todo| && Avoids(adj, s.order, todo[k], x);
      var p :| Walk(adj, p, todo[k], x) && forall y :: y in p ==> y !in s.order;
      WalkIsCovered(adj, s.order, todo, t.order, p, todo[k], x);
    }
  }

  // ----- in which order ----------------------------------------------------------------------------

  ghost predicate Distinct(l: seq<Node>) {
    forall i, j :: 0 <= i < j < |l| ==> l[i] != l[j]
  }

  lemma {:induction false} ExploreDistinct(adj: Adjacency, all: set<Node>, todo: seq<Node>, s: Search)
    requires EdgeClosed(adj, all) && SetOf(todo) <= all && Distinct(s.order)
    ensures Distinct(Explore(adj, all, todo, s).order)
    decreases all - SetOf(s.order), |todo|
  {
    if todo == [] {
    } else {
      assert todo[0] in SetOf(todo);
      ExploreStep(adj, all, todo, s);
      var v := todo[0];
      if v !in s.order {
        NeighborsWithin(adj, all, v);
        EntersLess(all, s, v);
        ExploreDistinct(adj, all, Neighbors(adj, v), Enter(s, v));
      }
      var t := Visit(adj, all, v, s);
      SeesLess(all, s.order, t.order);
      ExploreDistinct(adj, all, todo[1..], t);
    }
  }

  ghost predicate Before(l: seq<Node>, x: Node, y: Node) {
    exists i, j :: 0 <= i < j < |l| && l[i] == x && l[j] == y
  }

  /** Each later member of the group was discovered before each earlier one. */
  ghost predicate LatestFirst(order: seq<Node>, g: seq<Node>) {
    forall i, j {:trigger g[i], g[j]} :: 0 <= i < j < |g| ==> Before(order, g[j], g[i])
  }

  ghost predicate AllLatestFirst(s: Search) {
    forall g :: g in s.groups ==> LatestFirst(s.order, g)
  }

  lemma BeforeInMore(l: seq<Node>, more: seq<Node>, x: Node, y: Node)
    requires Before(l, x, y) && l <= more
    ensures Before(more, x, y)
  {
    var i, j :| 0 <= i < j < |l| && l[i] == x && l[j] == y;
    assert more[i] == x && more[j] == y;
  }

  lemma LatestFirstInMore(order: seq<Node>, more: seq<Node>, g: seq<Node>)
    requires LatestFirst(order, g) && order <= more
    ensures LatestFirst(more, g)
  {
    forall i, j | 0 <= i < j < |g| ensures Before(more, g[j], g[i]) {
      BeforeInMore(order, more, g[j], g[i]);
    }
  }

  lemma {:induction false} ClassOfMembers(adj: Adjacency, order: seq<Node>, v: Node, x: Node)
    ensures x in ClassOf(adj, order, v) <==> x in order && Mutual(adj, v, x)
  {
    hide Mutual;
    if order == [] {
    } else {
      var n := |order| - 1;
      ClassOfMembers(adj, order[..n], v, x);
      assert order == order[..n] + [order[n]];
    }
  }

  lemma {:induction false} ClassIsLatestFirst(adj: Adjacency, order: seq<Node>, v: Node)
    ensures LatestFirst(order, ClassOf(adj, order, v))
  {
    hide Mutual;
    if order == [] {
    } else {
      var n := |order| - 1;
      var front, rest := order[..n], ClassOf(adj, order[..n], v);
      ClassIsLatestFirst(adj, front, v);
      LatestFirstInMore(front, order, rest);
      if Mutual(adj, v, order[n]) {
        LatestOnTop(adj, order, v, rest);
      }
    }
  }

  lemma LatestOnTop(adj: Adjacency, order: seq<Node>, v: Node, rest: seq<Node>)
    requires order != [] && rest == ClassOf(adj, order[..|order| - 1], v) && LatestFirst(order, rest)
    ensures LatestFirst(order, [order[|order| - 1]] + rest)
  {
    hide ClassOf, Mutual;
    var n := |order| - 1;
    var g := [order[n]] + rest;
    forall i, j | 0 <= i < j < |g| ensures Before(order, g[j], g[i]) {
      if i == 0 {
        ClassOfMembers(adj, order[..n], v, g[j]);
        var k :| 0 <= k < n && order[..n][k] == g[j];
        assert order[k] == g[j];
      } else {
        assert g[i] == rest[i - 1] && g[j] == rest[j - 1];
      }
    }
  }

  lemma CloseLatestFirst(adj: Adjacency, s: Search, v: Node)
    requires AllLatestFirst(s)
    ensures AllLatestFirst(Close(adj, s, v))
  {
    hide ClassOf, LatestFirst;
    ClassIsLatestFirst(adj, s.order, v);
  }

  lemma {:induction false} ExploreLatestFirst(adj: Adjacency, all: set<Node>, todo: seq<Node>, s: Search)
    requires EdgeClosed(adj, all) && SetOf(todo) <= all && AllLatestFirst(s)
    ensures AllLatestFirst(Explore(adj, all, todo, s))
    decreases all - SetOf(s.order), |todo|
  {
    hide Close, LatestFirst;
    if todo == [] {
    } else {
      assert todo[0] in SetOf(todo);
      ExploreStep(adj, all, todo, s);
      var v := todo[0];
      if v !in s.order {
        var t := Enter(s, v);
        NeighborsWithin(adj, all, v);
        EntersLess(all, s, v);
        forall g | g in t.groups ensures LatestFirst(t.order, g) { LatestFirstInMore(s.order, t.order, g); }
        ExploreLatestFirst(adj, all, Neighbors(adj, v), t);
        CloseLatestFirst(adj, Explore(adj, all, Neighbors(adj, v), t), v);
      }
      var u := Visit(adj, all, v, s);
      SeesLess(all, s.order, u.order);
      ExploreLatestFirst(adj, all, todo[1..], u);
    }
  }

  /** Where the node at position `p` is discovered, what follows in the order begins with what its neighbors lead to. */
  lemma {:induction false} Discovered(adj: Adjacency, all: set<Node>, todo: seq<Node>, s: Search, p: nat)
    returns (d: Search)
    requires EdgeClosed(adj, all) && SetOf(todo) <= all && |s.order| <= p < |Explore(adj, all, todo, s).order|
    ensures var order := Explore(adj, all, todo, s).order;
      && d.order == order[..p + 1] && SetOf(Neighbors(adj, order[p])) <= all
      && Explore(adj, all, Neighbors(adj, order[p]), d).order <= order
    decreases all - SetOf(s.order), |todo|
  {
    hide Explore, Visit;
    if todo == [] {
      ExploreNothing(adj, all, s);
      assert false;
    } else {
      assert todo[0] in SetOf(todo);
      ExploreStep(adj, all, todo, s);
      var t := Visit(adj, all, todo[0], s);
      if p < |t.order| {
        d := DiscoveredInside(adj, all, todo[0], s, p);
        assert t.order[..p + 1] == Explore(adj, all, todo, s).order[..p + 1];
      } else {
        SeesLess(all, s.order, t.order);
        d := Discovered(adj, all, todo[1..], t, p);
      }
    }
  }

  lemma DiscoveredInside(adj: Adjacency, all: set<Node>, v: Node, s: Search, p: nat) returns (d: Search)
    requires EdgeClosed(adj, all) && v in all && |s.order| <= p < |Visit(adj, all, v, s).order|
    ensures var order := Visit(adj, all, v, s).order;
      && d.order == order[..p + 1] && SetOf(Neighbors(adj, order[p])) <= all
      && Explore(adj, all, Neighbors(adj, order[p]), d).order <= order
    decreases all - SetOf(s.order), 0
  {
    NeighborsWithin(adj, all, v);
    var t := Enter(s, v);
    var order := Explore(adj, all, Neighbors(adj, v), t).order;
    assert Visit(adj, all, v, s).order == order;
    hide Explore, Visit;
    EntersLess(all, s, v);
    if p == |s.order| {
      d := t;
      assert order[..p + 1] == t.order && order[p] == t.order[p] == v;
    } else {
      d := Discovered(adj, all, Neighbors(adj, v), t, p);
    }
  }

  lemma InPrefixFirst(order: seq<Node>, n: nat, u: Node, w: Node)
    requires n <= |order| && u in order[..n] && w in order && w !in order[..n]
    ensures Before(order, u, w)
  {
    var i :| 0 <= i < n && order[..n][i] == u;
    assert forall k :: 0 <= k < n ==> order[k] == order[..n][k];
    var j :| 0 <= j < |order| && order[j] == w;
    assert order[i] == u;
  }

  /** Neighbors are followed in the order they are listed in: a node that the first ones lead to, without meeting what
      was discovered before, is discovered before a node that they do not lead to. */
  lemma EarlierBranchFirst(
      adj: Adjacency, all: set<Node>, todo: seq<Node>, s: Search, p: nat, k: nat, u: Node, w: Node)
    requires EdgeClosed(adj, all) && SetOf(todo) <= all && |s.order| <= p < |Explore(adj, all, todo, s).order|
    requires var order := Explore(adj, all, todo, s).order; var ns := Neighbors(adj, order[p]);
      && k < |ns| && Avoids(adj, order[..p + 1], ns[k], u)
      && w in order && w !in order[..p + 1]
      && forall j :: 0 <= j <= k ==> !Avoids(adj, order[..p + 1], ns[j], w)
    ensures Before(Explore(adj, all, todo, s).order, u, w)
  {
    hide Explore, Avoids;
    var order := Explore(adj, all, todo, s).order;
    var d := Discovered(adj, all, todo, s, p);
    FirstBranches(adj, all, Neighbors(adj, order[p]), d, k, u, w);
    var t := FirstNeighbors(adj, all, Neighbors(adj, order[p]), d, k);
    assert order[..|t.order|] == t.order;
    InPrefixFirst(order, |t.order|, u, w);
  }

  /** The search after the first neighbors. */
  ghost function FirstNeighbors(adj: Adjacency, all: set<Node>, ns: seq<Node>, d: Search, k: nat): Search
    requires EdgeClosed(adj, all) && SetOf(ns) <= all && k < |ns|
  {
    assert forall x :: x in SetOf(ns[..k + 1]) ==> x in SetOf(ns);
    Explore(adj, all, ns[..k + 1], d)
  }

  lemma FirstBranches(adj: Adjacency, all: set<Node>, ns: seq<Node>, d: Search, k: nat, u: Node, w: Node)
    requires EdgeClosed(adj, all) && SetOf(ns) <= all && k < |ns|
    requires Avoids(adj, d.order, ns[k], u) && w !in d.order
    requires forall j :: 0 <= j <= k ==> !Avoids(adj, d.order, ns[j], w)
    ensures var t := FirstNeighbors(adj, all, ns, d, k);
      u in t.order && w !in t.order && t.order <= Explore(adj, all, ns, d).order
  {
    hide Explore, Avoids;
    var first, rest := ns[..k + 1], ns[k + 1..];
    assert ns == first + rest && SetOf(first) <= SetOf(ns) && SetOf(rest) <= SetOf(ns);
    ExploreConcat(adj, all, first, rest, d);
    assert first[k] == ns[k];
    ExploreFinds(adj, all, first, d, u);
    ExploreFinds(adj, all, first, d, w);
  }
}
