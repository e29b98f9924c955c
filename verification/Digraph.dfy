/** Directed graphs as adjacency lists, walks, reachability and mutual-reachability classes. */
module Digraph {
  type Node = string
  type Adjacency = map<Node, seq<Node>>

  function Neighbors(adj: Adjacency, v: Node): seq<Node> {
    if v in adj then adj[v] else []
  }

  predicate Edge(adj: Adjacency, u: Node, w: Node) {
    w in Neighbors(adj, u)
  }

  /** `p` is a walk from `u` to `w`: consecutive nodes of `p` are joined by edges. */
  ghost predicate Walk(adj: Adjacency, p: seq<Node>, u: Node, w: Node) {
    && p != [] && p[0] == u
    && if |p| == 1 then u == w else Edge(adj, u, p[1]) && Walk(adj, p[1..], p[1], w)
  }

  ghost predicate Reach(adj: Adjacency, u: Node, w: Node) {
    exists p :: Walk(adj, p, u, w)
  }

  ghost predicate Mutual(adj: Adjacency, u: Node, w: Node) {
    Reach(adj, u, w) && Reach(adj, w, u)
  }

  lemma ReachRefl(adj: Adjacency, u: Node)
    ensures Reach(adj, u, u)
  {
    assert Walk(adj, [u], u, u);
  }

  lemma {:induction false} WalkConcat(adj: Adjacency, p: seq<Node>, q: seq<Node>, u: Node, v: Node, w: Node)
    requires Walk(adj, p, u, v) && Walk(adj, q, v, w)
    ensures Walk(adj, p + q[1..], u, w)
  {
    if |p| == 1 {
      assert p + q[1..] == q;
    } else {
      WalkConcat(adj, p[1..], q, p[1], v, w);
      assert (p + q[1..])[1..] == p[1..] + q[1..];
    }
  }

  lemma ReachTrans(adj: Adjacency, u: Node, v: Node, w: Node)
    requires Reach(adj, u, v) && Reach(adj, v, w)
    ensures Reach(adj, u, w)
  {
    var p :| Walk(adj, p, u, v);
    var q :| Walk(adj, q, v, w);
    WalkConcat(adj, p, q, u, v, w);
  }

  lemma ReachEdge(adj: Adjacency, u: Node, w: Node)
    requires Edge(adj, u, w)
    ensures Reach(adj, u, w)
  {
    assert Walk(adj, [w], w, w);
    assert [u, w][1..] == [w];
    assert Walk(adj, [u, w], u, w);
  }

  lemma ReachStep(adj: Adjacency, u: Node, v: Node, w: Node)
    requires Reach(adj, u, v) && Edge(adj, v, w)
    ensures Reach(adj, u, w)
  {
    ReachEdge(adj, v, w);
    ReachTrans(adj, u, v, w);
  }

  /** No edge leaves `members`. */
  ghost predicate EdgeClosed(adj: Adjacency, members: set<Node>) {
    forall x, y {:trigger Edge(adj, x, y)} :: x in members && Edge(adj, x, y) ==> y in members
  }

  /** A set that no edge leaves is a set that no walk leaves. */
  lemma {:induction false} WalkStaysClosed(adj: Adjacency, s: set<Node>, p: seq<Node>, u: Node, w: Node)
    requires forall x, y :: x in s && Edge(adj, x, y) ==> y in s
    requires Walk(adj, p, u, w) && u in s
    ensures w in s
  {
    if |p| <= 1 {
    } else {
      WalkStaysClosed(adj, s, p[1..], p[1], w);
    }
  }

  lemma ReachStaysClosed(adj: Adjacency, s: set<Node>, u: Node, w: Node)
    requires forall x, y :: x in s && Edge(adj, x, y) ==> y in s
    requires u in s && Reach(adj, u, w)
    ensures w in s
  {
    var p :| Walk(adj, p, u, w);
    WalkStaysClosed(adj, s, p, u, w);
  }

  /** More edges, more reachability. */
  lemma {:induction false} WalkInSupergraph(small: Adjacency, big: Adjacency, p: seq<Node>, u: Node, w: Node)
    requires forall x, y :: Edge(small, x, y) ==> Edge(big, x, y)
    requires Walk(small, p, u, w)
    ensures Walk(big, p, u, w)
  {
    if |p| <= 1 {
    } else {
      WalkInSupergraph(small, big, p[1..], p[1], w);
    }
  }

  lemma ReachInSupergraph(small: Adjacency, big: Adjacency)
    requires forall x, y :: Edge(small, x, y) ==> Edge(big, x, y)
    ensures forall u, w :: Reach(small, u, w) ==> Reach(big, u, w)
  {
    forall u, w | Reach(small, u, w)
      ensures Reach(big, u, w)
    {
      var p :| Walk(small, p, u, w);
      WalkInSupergraph(small, big, p, u, w);
    }
  }

  /** `g` lists, without repetition, exactly one class of mutual reachability. */
  ghost predicate IsClass(adj: Adjacency, g: seq<Node>) {
    && |g| >= 1
    && (forall i, j :: 0 <= i < j < |g| ==> g[i] != g[j])
    && (forall u, w :: u in g ==> (w in g <==> Mutual(adj, u, w)))
  }
}
