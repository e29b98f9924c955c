/** The iterative search refines the recursive one: it returns the classes that depth-first search completes, in the
    same order and with the same order of members. */
module TarjanOrder {
  import opened Digraph
  import opened Sequences
  import opened Tarjan
  import DF = DepthFirst

  /** `order` lists the numbered nodes by their numbers. */
  ghost predicate Agrees(s: State, order: seq<Node>) {
    && |order| == s.index
    && (forall x :: x in s.indexMap ==> x in order)
    && (forall i :: 0 <= i < |order| ==> order[i] in s.indexMap && s.indexMap[order[i]] == i)
  }

  // ----- closing a component -----------------------------------------------------------------------

  /** Numbers fall along `l`. */
  ghost predicate Falling(m: map<Node, int>, l: seq<Node>) {
    && (forall x :: x in l ==> x in m)
    && (forall i, j :: 0 <= i < j < |l| && l[i] in m && l[j] in m ==> m[l[i]] > m[l[j]])
  }

  lemma {:induction false} FallingUnique(m: map<Node, int>, a: seq<Node>, b: seq<Node>)
    requires Falling(m, a) && Falling(m, b) && forall x :: x in a <==> x in b
    ensures a == b
  {
    if a == [] {
      NothingIn(b);
    } else if b == [] {
      NothingIn(a);
    } else {
      FallingHeads(m, a, b);
      TailMembers(m, a, b);
      TailMembers(m, b, a);
      FallingUnique(m, a[1..], b[1..]);
      assert a == [a[0]] + a[1..] && b == [b[0]] + b[1..];
    }
  }

  lemma NothingIn(l: seq<Node>)
    ensures (forall x :: x !in l) ==> l == []
  {
    if l != [] { assert l[0] in l; }
  }

  lemma FallingHeads(m: map<Node, int>, a: seq<Node>, b: seq<Node>)
    requires Falling(m, a) && Falling(m, b) && a != [] && b != [] && forall x :: x in a <==> x in b
    ensures a[0] == b[0]
  {
    assert a[0] in b && b[0] in a;
    HeadIsLargest(m, a, b[0]);
    HeadIsLargest(m, b, a[0]);
  }

  lemma HeadIsLargest(m: map<Node, int>, l: seq<Node>, x: Node)
    requires Falling(m, l) && x in l
    ensures x in m && l[0] in m && (x == l[0] || m[x] < m[l[0]])
  {
    var i :| 0 <= i < |l| && l[i] == x;
    assert l[0] in l;
  }

  lemma TailMembers(m: map<Node, int>, a: seq<Node>, b: seq<Node>)
    requires Falling(m, a) && a != [] && b != [] && a[0] == b[0] && forall x :: x in a <==> x in b
    ensures Falling(m, a[1..]) && forall x :: x in a[1..] ==> x in b[1..]
  {
    forall x | x in a[1..] ensures x in b[1..] {
      var i :| 0 <= i < |a[1..]| && a[1..][i] == x;
      assert a[i + 1] == x && m[a[0]] > m[a[i + 1]];
      assert x in b && b == [b[0]] + b[1..];
    }
  }

  lemma PoppedFalls(s: State, v: Node)
    requires Shape(s) && Sorted(s) && v in s.onStack
    ensures Falling(s.indexMap, Popped(s.stack, v))
  {
    PopSplits(s.stack, v);
    hide Popped, Kept, Shape;
    var g, m := Popped(s.stack, v), |s.stack| - 1;
    forall x | x in g ensures x in s.indexMap {
      var i :| 0 <= i < |g| && g[i] == x;
      StackNumbered(s, m - i);
    }
    forall i, j | 0 <= i < j < |g| ensures s.indexMap[g[i]] > s.indexMap[g[j]] {
      StackRises(s, m - j, m - i);
    }
  }

  lemma StackNumbered(s: State, i: nat)
    requires Sorted(s) && i < |s.stack|
    ensures s.stack[i] in s.indexMap
  {
    assert s.stack[i] in SetOf(s.stack);
  }

  lemma StackRises(s: State, i: nat, j: nat)
    requires Sorted(s) && i < j < |s.stack|
    ensures s.stack[i] in s.indexMap && s.stack[j] in s.indexMap
    ensures s.indexMap[s.stack[i]] < s.indexMap[s.stack[j]]
  {
    StackNumbered(s, i);
    StackNumbered(s, j);
  }

  lemma {:induction false} ClassFalls(adj: Adjacency, m: map<Node, int>, order: seq<Node>, v: Node)
    requires forall i :: 0 <= i < |order| ==> order[i] in m && m[order[i]] == i
    ensures Falling(m, DF.ClassOf(adj, order, v))
  {
    hide Mutual;
    if order == [] {
    } else {
      var n := |order| - 1;
      var rest := DF.ClassOf(adj, order[..n], v);
      ClassFalls(adj, m, order[..n], v);
      forall x | x in rest ensures x in m && m[x] < n {
        DF.ClassOfMembers(adj, order[..n], v, x);
        var k :| 0 <= k < n && order[..n][k] == x;
        assert order[k] == x;
      }
      assert DF.ClassOf(adj, order, v) == (if Mutual(adj, v, order[n]) then [order[n]] else []) + rest;
      hide Falling, DF.ClassOf;
      FallsOnTop(m, order[n], rest);
      assert [] + rest == rest;
    }
  }

  lemma FallsOnTop(m: map<Node, int>, x: Node, rest: seq<Node>)
    requires Falling(m, rest) && x in m && forall y :: y in rest ==> y in m && m[y] < m[x]
    ensures Falling(m, [x] + rest)
  {
    var l := [x] + rest;
    forall i, j | 0 <= i < j < |l| && l[i] in m && l[j] in m ensures m[l[i]] > m[l[j]] {
      assert l[j] == rest[j - 1] && l[j] in rest;
      if i > 0 { assert l[i] == rest[i - 1]; }
    }
  }

  /** A node whose lowlink stayed its number is the first of its class, and the segment popped is its class. */
  lemma RootIsEarliest(adj: Adjacency, nodes: seq<Node>, s: State, order: seq<Node>)
    requires Live(adj, nodes, s) && Exhausted(adj, s) && Agrees(s, order)
    requires s.lowlink[Top(s).node] == s.indexMap[Top(s).node]
    ensures DF.Earliest(adj, order, Top(s).node)
    ensures Popped(s.stack, Top(s).node) == DF.ClassOf(adj, order, Top(s).node)
  {
    var v := Top(s).node;
    forall x ensures x in Segment(s, v) <==> Mutual(adj, v, x) {
      SegmentIsMutual(adj, s, v, x);
    }
    forall i, j | 0 <= i < j < |order| && order[j] == v ensures !Mutual(adj, v, order[i]) {
      assert s.indexMap[order[i]] == i && s.indexMap[v] == j;
    }
    PopIsSegment(s, v);
    PoppedFalls(s, v);
    ClassFalls(adj, s.indexMap, order, v);
    forall x ensures x in Popped(s.stack, v) <==> x in DF.ClassOf(adj, order, v) {
      DF.ClassOfMembers(adj, order, v, x);
      assert x in Popped(s.stack, v) <==> x in SetOf(Popped(s.stack, v));
    }
    FallingUnique(s.indexMap, Popped(s.stack, v), DF.ClassOf(adj, order, v));
  }

  lemma OthersAreLater(adj: Adjacency, nodes: seq<Node>, s: State, order: seq<Node>)
    requires Live(adj, nodes, s) && Exhausted(adj, s) && Agrees(s, order)
    requires s.lowlink[Top(s).node] != s.indexMap[Top(s).node]
    ensures !DF.Earliest(adj, order, Top(s).node)
  {
    var n, v := |s.work| - 1, Top(s).node;
    NonRootHasParent(adj, s);
    var j := NonRootClimbs(adj, s);
    assert BelowAt(adj, s, j, v);
    assert Num(s, j) < Num(s, n);
    var a, b := s.indexMap[s.work[j].node], s.indexMap[v];
    assert s.work[j].node in s.indexMap && s.work[j].node in order && v in order;
    assert order[a] == s.work[j].node by { NumberedAt(s, order, s.work[j].node); }
    assert order[b] == v by { NumberedAt(s, order, v); }
  }

  lemma NumberedAt(s: State, order: seq<Node>, x: Node)
    requires Agrees(s, order) && x in s.indexMap
    ensures 0 <= s.indexMap[x] < |order| && order[s.indexMap[x]] == x
  {
    assert x in order;
    var i :| 0 <= i < |order| && order[i] == x;
  }

  /** So the machine closes a node exactly as the recursion does. */
  lemma EmitCloses(adj: Adjacency, nodes: seq<Node>, s: State, order: seq<Node>)
    requires Live(adj, nodes, s) && Numbered(s) && Exhausted(adj, s) && Agrees(s, order)
    ensures DF.Search(order, Emit(s).sccs) == DF.Close(adj, DF.Search(order, s.sccs), Top(s).node)
    ensures Agrees(Emit(s), order)
  {
    hide DF.Earliest, DF.ClassOf, Live;
    if s.lowlink[Top(s).node] == s.indexMap[Top(s).node] {
      RootIsEarliest(adj, nodes, s, order);
    } else {
      OthersAreLater(adj, nodes, s, order);
    }
  }

  // ----- the work path as what is left to explore ---------------------------------------------------

  ghost predicate WorkWithin(adj: Adjacency, all: set<Node>, work: seq<Frame>) {
    forall k :: 0 <= k < |work| ==> work[k].node in all && work[k].next <= |Neighbors(adj, work[k].node)|
  }

  lemma LeftWithin(adj: Adjacency, all: set<Node>, v: Node, next: nat)
    requires EdgeClosed(adj, all) && v in all && next <= |Neighbors(adj, v)|
    ensures SetOf(Neighbors(adj, v)[next..]) <= all
  {
    assert forall w :: w in SetOf(Neighbors(adj, v)[next..]) ==> Edge(adj, v, w);
  }

  /** What the recursion still does when the work path is `work`: the rest of the edges of the top node, its closing,
      and then the same for the frames below. */
  ghost function Finish(adj: Adjacency, all: set<Node>, work: seq<Frame>, s: DF.Search): DF.Search
    requires EdgeClosed(adj, all) && WorkWithin(adj, all, work)
    decreases |work|
  {
    if work == [] then s
    else
      var n := |work| - 1;
      Finish(adj, all, work[..n], FinishTop(adj, all, work[n], s))
  }

  ghost function FinishTop(adj: Adjacency, all: set<Node>, f: Frame, s: DF.Search): DF.Search
    requires EdgeClosed(adj, all) && f.node in all && f.next <= |Neighbors(adj, f.node)|
  {
    LeftWithin(adj, all, f.node, f.next);
    DF.Close(adj, DF.Explore(adj, all, Neighbors(adj, f.node)[f.next..], s), f.node)
  }

  /** The state with its top frame entered. */
  function Entering(s: State): State {
    if s.work == [] then s else Enter(s)
  }

  ghost function OrderAfter(s: State, order: seq<Node>): seq<Node> {
    if s.work != [] && Top(s).next == 0 then order + [Top(s).node] else order
  }

  lemma FinishFrame(adj: Adjacency, all: set<Node>, v: Node, next: nat, s: DF.Search)
    requires EdgeClosed(adj, all) && v in all && next < |Neighbors(adj, v)|
    ensures var w := Neighbors(adj, v)[next];
      && w in all
      && FinishTop(adj, all, Frame(v, next), s) == FinishTop(adj, all, Frame(v, next + 1), DF.Visit(adj, all, w, s))
  {
    var ns := Neighbors(adj, v);
    LeftWithin(adj, all, v, next);
    LeftWithin(adj, all, v, next + 1);
    assert ns[next] == ns[next..][0] && ns[next..][1..] == ns[next + 1..];
    DF.ExploreStep(adj, all, ns[next..], s);
  }

  lemma FinishFresh(adj: Adjacency, all: set<Node>, w: Node, s: DF.Search)
    requires EdgeClosed(adj, all) && w in all && w !in s.order
    ensures FinishTop(adj, all, Frame(w, 0), DF.Enter(s, w)) == DF.Visit(adj, all, w, s)
  {
    assert Neighbors(adj, w)[0..] == Neighbors(adj, w);
    LeftWithin(adj, all, w, 0);
  }

  lemma FinishLast(adj: Adjacency, all: set<Node>, rest: seq<Frame>, f: Frame, s: DF.Search)
    requires EdgeClosed(adj, all) && WorkWithin(adj, all, rest + [f])
    ensures WorkWithin(adj, all, rest) && f.node in all && f.next <= |Neighbors(adj, f.node)|
    ensures Finish(adj, all, rest + [f], s) == Finish(adj, all, rest, FinishTop(adj, all, f, s))
  {
    assert (rest + [f])[..|rest|] == rest && (rest + [f])[|rest|] == f;
    forall k | 0 <= k < |rest| ensures rest[k].node in all && rest[k].next <= |Neighbors(adj, rest[k].node)| {
      assert (rest + [f])[k] == rest[k];
    }
  }

  lemma Numberless(s: State, order: seq<Node>, w: Node)
    requires Agrees(s, order)
    ensures w in order <==> w in s.indexMap
  {
    if w in order {
      var i :| 0 <= i < |order| && order[i] == w;
    }
  }

  lemma NumberedOnce(s: State, order: seq<Node>, w: Node)
    requires Agrees(s, order) && w !in s.indexMap && s.work != [] && Top(s) == Frame(w, 0)
    ensures Agrees(Enter(s), order + [w])
  {
    var l, m := order + [w], s.indexMap[w := s.index];
    forall i | 0 <= i < |l| ensures l[i] in m && m[l[i]] == i {
      if i < |order| { assert l[i] == order[i]; }
    }
    forall x | x in m ensures x in l {
      if x == w { assert l[|order|] == w; } else { assert x in order; }
    }
  }

  lemma WithinOneMore(adj: Adjacency, all: set<Node>, work: seq<Frame>, f: Frame)
    requires WorkWithin(adj, all, work) && f.node in all && f.next <= |Neighbors(adj, f.node)|
    ensures WorkWithin(adj, all, work + [f])
  {
  }

  /** Following an edge to a node seen before leaves as much to do as that edge was. */
  lemma KnownFinishes(adj: Adjacency, all: set<Node>, rest: seq<Frame>, v: Node, next: nat, d: DF.Search)
    requires EdgeClosed(adj, all) && WorkWithin(adj, all, rest + [Frame(v, next)]) && next < |Neighbors(adj, v)|
    requires Neighbors(adj, v)[next] in d.order
    ensures WorkWithin(adj, all, rest + [Frame(v, next + 1)])
    ensures Finish(adj, all, rest + [Frame(v, next + 1)], d) == Finish(adj, all, rest + [Frame(v, next)], d)
  {
    hide Finish, FinishTop, WorkWithin;
    var f, g, w := Frame(v, next), Frame(v, next + 1), Neighbors(adj, v)[next];
    FinishLast(adj, all, rest, f, d);
    FinishFrame(adj, all, v, next, d);
    assert DF.Visit(adj, all, w, d) == d;
    WithinOneMore(adj, all, rest, g);
    FinishLast(adj, all, rest, g, d);
  }

  /** When no edge of the top node is left, closing it is all there was to do for it. */
  lemma DoneFinishes(adj: Adjacency, all: set<Node>, rest: seq<Frame>, v: Node, next: nat, d: DF.Search)
    requires EdgeClosed(adj, all) && WorkWithin(adj, all, rest + [Frame(v, next)]) && next == |Neighbors(adj, v)|
    ensures WorkWithin(adj, all, rest)
    ensures Finish(adj, all, rest + [Frame(v, next)], d) == Finish(adj, all, rest, DF.Close(adj, d, v))
  {
    hide Finish, WorkWithin, DF.Close;
    FinishLast(adj, all, rest, Frame(v, next), d);
    DF.ExploreNothing(adj, all, d);
    assert Neighbors(adj, v)[next..] == [];
  }

  lemma FreshFinishes(adj: Adjacency, all: set<Node>, rest: seq<Frame>, v: Node, next: nat, d: DF.Search)
    requires EdgeClosed(adj, all) && WorkWithin(adj, all, rest + [Frame(v, next)]) && next < |Neighbors(adj, v)|
    requires Neighbors(adj, v)[next] !in d.order
    ensures var w := Neighbors(adj, v)[next]; var work := rest + [Frame(v, next + 1)] + [Frame(w, 0)];
      && WorkWithin(adj, all, work)
      && Finish(adj, all, work, DF.Enter(d, w)) == Finish(adj, all, rest + [Frame(v, next)], d)
  {
    hide Finish, FinishTop, WorkWithin, DF.Visit;
    var f, g, w := Frame(v, next), Frame(v, next + 1), Neighbors(adj, v)[next];
    FinishLast(adj, all, rest, f, d);
    FinishFrame(adj, all, v, next, d);
    WithinOneMore(adj, all, rest, g);
    WithinOneMore(adj, all, rest + [g], Frame(w, 0));
    FinishLast(adj, all, rest + [g], Frame(w, 0), DF.Enter(d, w));
    FinishFresh(adj, all, w, d);
    FinishLast(adj, all, rest, g, DF.Visit(adj, all, w, d));
  }

  /** What is left to do does not change in a step. */
  lemma ScanFinishes(adj: Adjacency, all: set<Node>, s: State, order: seq<Node>)
    requires EdgeClosed(adj, all) && WorkWithin(adj, all, s.work) && Agrees(s, order)
    requires s.work != [] && Numbered(s) && Top(s).next < |Neighbors(adj, Top(s).node)|
    ensures var t := Scan(adj, s); var left := OrderAfter(t, order);
      && Agrees(Entering(t), left) && WorkWithin(adj, all, t.work)
      && Finish(adj, all, t.work, DF.Search(left, t.sccs)) == Finish(adj, all, s.work, DF.Search(order, s.sccs))
  {
    hide Finish, WorkWithin, Agrees, Scan, Enter, Entering, OrderAfter, Numbered;
    var t, f, d := Scan(adj, s), Top(s), DF.Search(order, s.sccs);
    var w := Neighbors(adj, f.node)[f.next];
    Numberless(s, order, w);
    ScanFacts(adj, s);
    AgreesAlike(s, t, order);
    if w in s.indexMap {
      KnownScan(adj, all, s.work, f, d);
      StartedEnters(t, order);
    } else {
      FreshScan(adj, all, s.work, f, d);
      FreshEnters(t, order);
      NumberedOnce(t, order, w);
    }
  }

  lemma KnownScan(adj: Adjacency, all: set<Node>, work: seq<Frame>, f: Frame, d: DF.Search)
    requires work != [] && work[|work| - 1] == f && f.next < |Neighbors(adj, f.node)|
    requires EdgeClosed(adj, all) && WorkWithin(adj, all, work) && Neighbors(adj, f.node)[f.next] in d.order
    ensures var next := FollowedPath(work, f);
      WorkWithin(adj, all, next) && Finish(adj, all, next, d) == Finish(adj, all, work, d)
  {
    hide Finish, WorkWithin;
    assert work == work[..|work| - 1] + [Frame(f.node, f.next)];
    KnownFinishes(adj, all, work[..|work| - 1], f.node, f.next, d);
  }

  lemma FreshScan(adj: Adjacency, all: set<Node>, work: seq<Frame>, f: Frame, d: DF.Search)
    requires work != [] && work[|work| - 1] == f && f.next < |Neighbors(adj, f.node)|
    requires EdgeClosed(adj, all) && WorkWithin(adj, all, work) && Neighbors(adj, f.node)[f.next] !in d.order
    ensures var w := Neighbors(adj, f.node)[f.next]; var next := FollowedPath(work, f) + [Frame(w, 0)];
      WorkWithin(adj, all, next) && Finish(adj, all, next, DF.Enter(d, w)) == Finish(adj, all, work, d)
  {
    hide Finish, WorkWithin;
    assert work == work[..|work| - 1] + [Frame(f.node, f.next)];
    FreshFinishes(adj, all, work[..|work| - 1], f.node, f.next, d);
  }

  function FollowedPath(work: seq<Frame>, f: Frame): seq<Frame>
    requires work != []
  {
    work[..|work| - 1] + [Frame(f.node, f.next + 1)]
  }

  lemma ScanFacts(adj: Adjacency, s: State)
    requires s.work != [] && Numbered(s) && Top(s).next < |Neighbors(adj, Top(s).node)|
    ensures var f, t := Top(s), Scan(adj, s);
      var w := Neighbors(adj, f.node)[f.next];
      && t.index == s.index && t.indexMap == s.indexMap && t.sccs == s.sccs
      && (w in s.indexMap ==> t.work == FollowedPath(s.work, f))
      && (w !in s.indexMap ==> t.work == FollowedPath(s.work, f) + [Frame(w, 0)])
  {
  }

  lemma StartedEnters(s: State, order: seq<Node>)
    requires s.work == [] || Top(s).next > 0
    ensures Entering(s) == s && OrderAfter(s, order) == order
  {
  }

  lemma FreshEnters(s: State, order: seq<Node>)
    requires s.work != [] && Top(s).next == 0
    ensures Entering(s) == Enter(s) && OrderAfter(s, order) == order + [Top(s).node]
  {
  }

  lemma AgreesAlike(s: State, t: State, order: seq<Node>)
    requires Agrees(s, order) && t.index == s.index && t.indexMap == s.indexMap
    ensures Agrees(t, order)
  {
  }

  lemma LiveFrames(adj: Adjacency, nodes: seq<Node>, s: State)
    requires Live(adj, nodes, s)
    ensures Shape(s) && Frames(adj, s)
  {
  }

  lemma LeaveFinishes(adj: Adjacency, all: set<Node>, nodes: seq<Node>, s: State, order: seq<Node>)
    requires EdgeClosed(adj, all) && WorkWithin(adj, all, s.work) && Agrees(s, order)
    requires Live(adj, nodes, s) && Numbered(s) && Exhausted(adj, s)
    ensures var t := Return(Emit(s)); var left := OrderAfter(t, order);
      && Agrees(Entering(t), left) && WorkWithin(adj, all, t.work)
      && Finish(adj, all, t.work, DF.Search(left, t.sccs)) == Finish(adj, all, s.work, DF.Search(order, s.sccs))
  {
    hide Live, Finish, WorkWithin, Emit, Return, DF.Close, Agrees, Entering, OrderAfter, Shape, Frames, Numbered;
    LiveFrames(adj, nodes, s);
    EmitKeepsNumbers(s);
    EmitCloses(adj, nodes, s, order);
    LeaveStarted(adj, s);
    LeaveFacts(s);
    AgreesAlike(Emit(s), Return(Emit(s)), order);
    StartedEnters(Return(Emit(s)), order);
    PopFinishes(adj, all, s.work, Top(s), DF.Search(order, s.sccs));
  }

  lemma EmitKeepsNumbers(s: State)
    requires s.work != [] && Numbered(s)
    ensures Emit(s).work == s.work && Numbered(Emit(s))
  {
  }

  lemma PopFinishes(adj: Adjacency, all: set<Node>, work: seq<Frame>, f: Frame, d: DF.Search)
    requires work != [] && work[|work| - 1] == f && f.next == |Neighbors(adj, f.node)|
    requires EdgeClosed(adj, all) && WorkWithin(adj, all, work)
    ensures WorkWithin(adj, all, work[..|work| - 1])
    ensures Finish(adj, all, work, d) == Finish(adj, all, work[..|work| - 1], DF.Close(adj, d, f.node))
  {
    assert work == work[..|work| - 1] + [Frame(f.node, f.next)];
    DoneFinishes(adj, all, work[..|work| - 1], f.node, f.next, d);
  }

  lemma LeaveFacts(s: State)
    requires s.work != [] && Numbered(s)
    ensures var t, e := Return(Emit(s)), Emit(s);
      t.index == e.index && t.indexMap == e.indexMap && t.sccs == e.sccs && t.work == s.work[..|s.work| - 1]
  {
  }

  // ----- whole runs --------------------------------------------------------------------------------

  /** A run from `s` ends with what the recursion gives when it does what is left. */
  lemma {:induction false} RunFinishes(adj: Adjacency, all: set<Node>, nodes: seq<Node>, s: State, order: seq<Node>)
    requires Head(adj, nodes, s) && EdgeClosed(adj, all) && WorkWithin(adj, all, s.work)
    requires Agrees(Entering(s), order)
    ensures var end := Finish(adj, all, s.work, DF.Search(order, s.sccs));
      var r := Run(adj, nodes, s); Agrees(r, end.order) && r.sccs == end.groups
    decreases Universe(adj, nodes) - Known(s), |s.work|, EdgesLeft(adj, s)
  {
    hide Live, Known, Universe, EdgesLeft, Agrees, WorkWithin, Enter, Step;
    if s.work == [] {
    } else {
      HeadEntersLive(adj, nodes, s);
      RunUnfolds(adj, nodes, s);
      StepFinishes(adj, all, nodes, s, order);
      hide Head, Step, Entering, Finish;
      RunFinishes(adj, all, nodes, Step(adj, s), OrderAfter(Step(adj, s), order));
    }
  }

  lemma StepFinishes(adj: Adjacency, all: set<Node>, nodes: seq<Node>, s: State, order: seq<Node>)
    requires Head(adj, nodes, s) && EdgeClosed(adj, all) && WorkWithin(adj, all, s.work)
    requires s.work != [] && Numbered(Enter(s)) && Agrees(Enter(s), order)
    ensures var t := Step(adj, s); var left := OrderAfter(t, order);
      && Agrees(Entering(t), left) && WorkWithin(adj, all, t.work)
      && Finish(adj, all, t.work, DF.Search(left, t.sccs)) == Finish(adj, all, s.work, DF.Search(order, s.sccs))
  {
    hide Live, Agrees, WorkWithin, Finish, Head, Scan, Return, Emit;
    HeadEntersLive(adj, nodes, s);
    var e := Enter(s);
    if Top(e).next < |Neighbors(adj, Top(e).node)| {
      ScanFinishes(adj, all, e, order);
    } else {
      TopIsExhausted(adj, nodes, e);
      LeaveFinishes(adj, all, nodes, e, order);
    }
  }

  lemma TopIsExhausted(adj: Adjacency, nodes: seq<Node>, s: State)
    requires Live(adj, nodes, s) && s.work != [] && Top(s).next >= |Neighbors(adj, Top(s).node)|
    ensures Exhausted(adj, s)
  {
    assert FrameAt(adj, s, |s.work| - 1);
  }

  lemma OpenAgrees(s: State, r: Node, order: seq<Node>)
    requires Agrees(s, order) && r !in s.indexMap
    ensures Agrees(Entering(Open(s, r)), order + [r]) && r !in order
  {
    Numberless(s, order, r);
    NumberedOnce(Open(s, r), order, r);
  }

  lemma VisitAgrees(adj: Adjacency, all: set<Node>, nodes: seq<Node>, s: State, r: Node, order: seq<Node>)
    requires Idle(adj, nodes, s) && r in nodes && EdgeClosed(adj, all) && r in all && Agrees(s, order)
    ensures var d := DF.Visit(adj, all, r, DF.Search(order, s.sccs));
      var t := Visit(adj, nodes, s, r); Agrees(t, d.order) && t.sccs == d.groups
  {
    hide Live, Agrees, Head, Finish, Run, Entering, FinishTop, DF.Explore, DF.Close;
    var d := DF.Search(order, s.sccs);
    Numberless(s, order, r);
    if r !in s.indexMap {
      var o := Open(s, r);
      OpenIsHead(adj, nodes, s, r);
      OpenAgrees(s, r, order);
      hide DF.Visit;
      FinishFresh(adj, all, r, d);
      assert o.work == [] + [Frame(r, 0)];
      FinishLast(adj, all, [], Frame(r, 0), DF.Enter(d, r));
      FinishNothing(adj, all, DF.Visit(adj, all, r, d));
      RunFinishes(adj, all, nodes, o, order + [r]);
    }
  }

  lemma FinishNothing(adj: Adjacency, all: set<Node>, s: DF.Search)
    requires EdgeClosed(adj, all)
    ensures WorkWithin(adj, all, []) && Finish(adj, all, [], s) == s
  {
  }

  lemma {:induction false} VisitAllAgrees(
      adj: Adjacency, all: set<Node>, nodes: seq<Node>, todo: seq<Node>, s: State, order: seq<Node>)
    requires Idle(adj, nodes, s) && SetOf(todo) <= SetOf(nodes) && EdgeClosed(adj, all) && SetOf(todo) <= all
    requires Agrees(s, order)
    ensures var d := DF.Explore(adj, all, todo, DF.Search(order, s.sccs));
      var t := VisitAll(adj, nodes, todo, s); Agrees(t, d.order) && t.sccs == d.groups
    decreases |todo|
  {
    hide Agrees, Live, Run, DF.Visit;
    if todo == [] {
      DF.ExploreNothing(adj, all, DF.Search(order, s.sccs));
    } else {
      assert todo[0] in SetOf(todo) && todo[0] in SetOf(nodes);
      assert SetOf(todo) == {todo[0]} + SetOf(todo[1..]);
      VisitAgrees(adj, all, nodes, s, todo[0], order);
      DF.ExploreStep(adj, all, todo, DF.Search(order, s.sccs));
      var d := DF.Visit(adj, all, todo[0], DF.Search(order, s.sccs));
      VisitAllAgrees(adj, all, nodes, todo[1..], Visit(adj, nodes, s, todo[0]), d.order);
    }
  }

  /** Main result: the component list is the one depth-first search completes. */
  lemma ComponentsAreExplored(adj: Adjacency, all: set<Node>, nodes: seq<Node>)
    requires EdgeClosed(adj, all) && SetOf(nodes) <= all
    ensures Components(adj, nodes) == DF.Explore(adj, all, nodes, DF.NOTHING).groups
  {
    InitialIsLive(adj, nodes);
    VisitAllAgrees(adj, all, nodes, nodes, INITIAL, []);
  }

  // ----- the order of groups and members -----------------------------------------------------------

  /** No node listed before `nodes[i]` reaches it. */
  ghost predicate FirstToReach(adj: Adjacency, nodes: seq<Node>, i: nat)
    requires i < |nodes|
  {
    forall j :: 0 <= j < i ==> !Reach(adj, nodes[j], nodes[i])
  }

  lemma UniverseIsClosed(adj: Adjacency, nodes: seq<Node>)
    ensures EdgeClosed(adj, Universe(adj, nodes)) && SetOf(nodes) <= Universe(adj, nodes)
  {
  }

  /** The search up to `nodes[i]`, what it then discovers, and the whole. */
  ghost function UpTo(adj: Adjacency, nodes: seq<Node>, i: nat): DF.Search
    requires i <= |nodes|
  {
    UniverseIsClosed(adj, nodes);
    assert SetOf(nodes[..i]) <= SetOf(nodes);
    DF.Explore(adj, Universe(adj, nodes), nodes[..i], DF.NOTHING)
  }

  lemma UpToExtends(adj: Adjacency, nodes: seq<Node>, i: nat)
    requires i <= |nodes|
    ensures UpTo(adj, nodes, i).order <= UpTo(adj, nodes, |nodes|).order
    ensures UpTo(adj, nodes, i).groups <= Components(adj, nodes)
    ensures UpTo(adj, nodes, |nodes|).groups == Components(adj, nodes)
    ensures DF.Distinct(UpTo(adj, nodes, |nodes|).order) && DF.AllLatestFirst(UpTo(adj, nodes, |nodes|))
  {
    var all := Universe(adj, nodes);
    UniverseIsClosed(adj, nodes);
    assert nodes == nodes[..i] + nodes[i..] && nodes[..|nodes|] == nodes;
    assert SetOf(nodes[..i]) <= SetOf(nodes) && SetOf(nodes[i..]) <= SetOf(nodes);
    hide DF.Explore;
    DF.ExploreConcat(adj, all, nodes[..i], nodes[i..], DF.NOTHING);
    ComponentsAreExplored(adj, all, nodes);
    DF.ExploreDistinct(adj, all, nodes, DF.NOTHING);
    DF.ExploreLatestFirst(adj, all, nodes, DF.NOTHING);
  }

  /** Before `nodes[i]` is visited, exactly what the nodes before it reach is discovered. */
  lemma UpToFinds(adj: Adjacency, nodes: seq<Node>, i: nat, x: Node)
    requires i <= |nodes|
    ensures x in UpTo(adj, nodes, i).order <==> FromRoots(adj, nodes[..i], x)
  {
    var all := Universe(adj, nodes);
    UniverseIsClosed(adj, nodes);
    assert SetOf(nodes[..i]) <= SetOf(nodes);
    hide DF.Explore;
    DF.ExploreFinds(adj, all, nodes[..i], DF.NOTHING, x);
    if DF.FoundFrom(adj, [], nodes[..i], x) {
      var k :| 0 <= k < |nodes[..i]| && DF.Avoids(adj, [], nodes[..i][k], x);
      DF.AvoidsReaches(adj, [], nodes[..i][k], x);
    }
    if FromRoots(adj, nodes[..i], x) {
      var r :| r in nodes[..i] && Reach(adj, r, x);
      var k :| 0 <= k < |nodes[..i]| && nodes[..i][k] == r;
      assert DF.Avoids(adj, [], r, x) by {
        var p :| Walk(adj, p, r, x);
        assert forall y :: y in p ==> y !in [];
      }
    }
  }

  /** A node that none before it reaches is discovered right after what those reach. */
  lemma DiscoveredNext(adj: Adjacency, nodes: seq<Node>, i: nat)
    requires i < |nodes| && FirstToReach(adj, nodes, i)
    ensures UpTo(adj, nodes, i).order + [nodes[i]] <= UpTo(adj, nodes, |nodes|).order
  {
    var all, s := Universe(adj, nodes), UpTo(adj, nodes, i);
    UniverseIsClosed(adj, nodes);
    UpToFinds(adj, nodes, i, nodes[i]);
    assert !FromRoots(adj, nodes[..i], nodes[i]);
    assert nodes[..i + 1] == nodes[..i] + [nodes[i]] && nodes[i] in SetOf(nodes) && SetOf([nodes[i]]) <= SetOf(nodes);
    assert SetOf(nodes[..i]) <= SetOf(nodes);
    DF.ExploreConcat(adj, all, nodes[..i], [nodes[i]], DF.NOTHING);
    DF.ExploreStep(adj, all, [nodes[i]], s);
    DF.ExploreNothing(adj, all, DF.Visit(adj, all, nodes[i], s));
    assert [nodes[i]][1..] == [];
    assert DF.Enter(s, nodes[i]).order <= DF.Visit(adj, all, nodes[i], s).order;
    UpToExtends(adj, nodes, i + 1);
  }

  lemma NotBothWays(order: seq<Node>, x: Node, y: Node)
    requires DF.Distinct(order) && DF.Before(order, x, y)
    ensures !DF.Before(order, y, x)
  {
  }

  /** Members of a class that `nodes[i]` is the first listed node to reach are reached by none listed before it. */
  lemma ClassIsNew(adj: Adjacency, nodes: seq<Node>, i: nat, x: Node)
    requires i < |nodes| && FirstToReach(adj, nodes, i) && Reach(adj, x, nodes[i])
    ensures !FromRoots(adj, nodes[..i], x) && x !in UpTo(adj, nodes, i).order
  {
    UpToFinds(adj, nodes, i, x);
    if FromRoots(adj, nodes[..i], x) {
      var r :| r in nodes[..i] && Reach(adj, r, x);
      var j :| 0 <= j < i && nodes[..i][j] == r;
      ReachTrans(adj, nodes[j], x, nodes[i]);
      assert false;
    }
  }

  lemma GroupIsClass(adj: Adjacency, nodes: seq<Node>, g: seq<Node>)
    requires g in Components(adj, nodes)
    ensures IsClass(adj, g) && DF.LatestFirst(UpTo(adj, nodes, |nodes|).order, g)
    ensures forall x :: x in g ==> x in UpTo(adj, nodes, |nodes|).order
  {
    ComponentsAreClasses(adj, nodes);
    UpToExtends(adj, nodes, 0);
    forall x | x in g ensures x in UpTo(adj, nodes, |nodes|).order {
      assert x in Members(Components(adj, nodes));
      assert nodes[..|nodes|] == nodes;
      UpToFinds(adj, nodes, |nodes|, x);
    }
  }

  lemma FirstAfterPrefix(order: seq<Node>, s: seq<Node>, x: Node, y: Node)
    requires s + [x] <= order && y in order && y !in s && y != x
    ensures DF.Before(order, x, y)
  {
    assert order[..|s| + 1] == s + [x];
    assert x in order[..|s| + 1] && y !in order[..|s| + 1];
    DF.InPrefixFirst(order, |s| + 1, x, y);
  }

  /** Nodes are visited in the order they are listed in: one that none before it reaches is the last of its group. */
  lemma FirstListedIsLast(adj: Adjacency, nodes: seq<Node>, i: nat, g: seq<Node>)
    requires i < |nodes| && FirstToReach(adj, nodes, i) && g in Components(adj, nodes) && nodes[i] in g
    ensures g[|g| - 1] == nodes[i]
  {
    hide UpTo, IsClass, DF.LatestFirst, DF.AllLatestFirst, FirstToReach, Components;
    var order, n := UpTo(adj, nodes, |nodes|).order, |g| - 1;
    ClassMembers(adj, nodes, g, nodes[i], n);
    UpToExtends(adj, nodes, i);
    var a :| 0 <= a < |g| && g[a] == nodes[i];
    if g[n] != nodes[i] {
      LaterBefore(order, g, a, n);
      NotBothWays(order, g[n], nodes[i]);
      DiscoveredNext(adj, nodes, i);
      ClassIsNew(adj, nodes, i, g[n]);
      FirstAfterPrefix(order, UpTo(adj, nodes, i).order, nodes[i], g[n]);
    }
  }

  /** Edges are followed in the order they are listed in. Where `nodes[i]` is the first listed node to reach its group,
      a member that one of its first neighbors leads to, not through it, stands after each other member to which none
      of them leads. */
  lemma EarlierEdgesLater(adj: Adjacency, nodes: seq<Node>, i: nat, g: seq<Node>, k: nat, a: nat, b: nat)
    requires i < |nodes| && FirstToReach(adj, nodes, i) && g in Components(adj, nodes) && nodes[i] in g
    requires k < |Neighbors(adj, nodes[i])| && a < |g| && b < |g| && g[b] != nodes[i]
    requires DF.Avoids(adj, [nodes[i]], Neighbors(adj, nodes[i])[k], g[a])
    requires forall j :: 0 <= j <= k ==> !DF.Avoids(adj, [nodes[i]], Neighbors(adj, nodes[i])[j], g[b])
    ensures b < a
  {
    hide UpTo, DF.Avoids, IsClass, DF.LatestFirst, DF.AllLatestFirst, FirstToReach, Components;
    var order := UpTo(adj, nodes, |nodes|).order;
    ClassMembers(adj, nodes, g, nodes[i], a);
    ClassMembers(adj, nodes, g, nodes[i], b);
    UpToExtends(adj, nodes, i);
    EarlierEdgeFirst(adj, nodes, i, k, g[a], g[b]);
    NotBothWays(order, g[a], g[b]);
    if a < b { LaterBefore(order, g, a, b); }
  }

  lemma LaterBefore(order: seq<Node>, g: seq<Node>, a: nat, b: nat)
    requires DF.LatestFirst(order, g) && a < b < |g|
    ensures DF.Before(order, g[b], g[a])
  {
  }

  lemma ClassMembers(adj: Adjacency, nodes: seq<Node>, g: seq<Node>, r: Node, a: nat)
    requires g in Components(adj, nodes) && r in g && a < |g|
    ensures Mutual(adj, r, g[a]) && g[a] in UpTo(adj, nodes, |nodes|).order
    ensures DF.LatestFirst(UpTo(adj, nodes, |nodes|).order, g)
  {
    hide UpTo;
    GroupIsClass(adj, nodes, g);
    assert g[a] in g;
  }

  lemma EarlierEdgeFirst(adj: Adjacency, nodes: seq<Node>, i: nat, k: nat, u: Node, w: Node)
    requires i < |nodes| && FirstToReach(adj, nodes, i) && k < |Neighbors(adj, nodes[i])|
    requires Mutual(adj, nodes[i], u) && Mutual(adj, nodes[i], w) && w != nodes[i]
    requires w in UpTo(adj, nodes, |nodes|).order
    requires DF.Avoids(adj, [nodes[i]], Neighbors(adj, nodes[i])[k], u)
    requires forall j :: 0 <= j <= k ==> !DF.Avoids(adj, [nodes[i]], Neighbors(adj, nodes[i])[j], w)
    ensures DF.Before(UpTo(adj, nodes, |nodes|).order, u, w)
  {
    var s, order := UpTo(adj, nodes, i).order, UpTo(adj, nodes, |nodes|).order;
    var r, p := nodes[i], |s|;
    hide DF.Avoids, FirstToReach, DF.Explore;
    DiscoveredNext(adj, nodes, i);
    assert order[..p + 1] == s + [r] && order[p] == r;
    ClassIsNew(adj, nodes, i, w);
    AvoidsToClass(adj, nodes, i, Neighbors(adj, r)[k], u);
    forall j | 0 <= j <= k ensures !DF.Avoids(adj, s + [r], Neighbors(adj, r)[j], w) {
      if DF.Avoids(adj, s + [r], Neighbors(adj, r)[j], w) {
        DF.AvoidsMore(adj, [r], s + [r], Neighbors(adj, r)[j], w);
      }
    }
    UniverseIsClosed(adj, nodes);
    assert nodes[..|nodes|] == nodes;
    DF.EarlierBranchFirst(adj, Universe(adj, nodes), nodes, DF.NOTHING, p, k, u, w);
  }

  /** A walk into a class that `nodes[i]` is first to reach meets nothing discovered before. */
  lemma AvoidsToClass(adj: Adjacency, nodes: seq<Node>, i: nat, u: Node, w: Node)
    requires i < |nodes| && FirstToReach(adj, nodes, i) && Reach(adj, w, nodes[i])
    requires DF.Avoids(adj, [nodes[i]], u, w)
    ensures DF.Avoids(adj, UpTo(adj, nodes, i).order + [nodes[i]], u, w)
  {
    var s := UpTo(adj, nodes, i).order;
    var p :| Walk(adj, p, u, w) && forall x :: x in p ==> x !in [nodes[i]];
    forall x | x in p ensures x !in s + [nodes[i]] {
      OnWalk(adj, p, u, w, x);
      ReachTrans(adj, x, w, nodes[i]);
      ClassIsNew(adj, nodes, i, x);
      assert x !in [nodes[i]];
    }
  }

  lemma {:induction false} OnWalk(adj: Adjacency, p: seq<Node>, u: Node, w: Node, x: Node)
    requires Walk(adj, p, u, w) && x in p
    ensures Reach(adj, x, w)
  {
    if x == p[0] {
    } else {
      assert x in p[1..];
      OnWalk(adj, p[1..], p[1], w, x);
    }
  }

  /** What the first listed nodes reach is grouped before everything else. */
  lemma EarlierRootsFirst(adj: Adjacency, nodes: seq<Node>, i: nat, a: nat, b: nat, x: Node, y: Node)
    requires var sccs := Components(adj, nodes);
      i <= |nodes| && a < |sccs| && b < |sccs| && x in sccs[a] && y in sccs[b]
    requires FromRoots(adj, nodes[..i], x) && !FromRoots(adj, nodes[..i], y)
    ensures a < b
  {
    hide UpTo, Components, FromRoots, IsClass, Members;
    var sccs, first := Components(adj, nodes), Components(adj, nodes[..i]);
    UniverseIsClosed(adj, nodes);
    UpToExtends(adj, nodes, i);
    PrefixGroups(adj, nodes, i);
    ComponentsAreClasses(adj, nodes[..i]);
    ComponentsAreClasses(adj, nodes);
    var c := InGroup(first, x);
    assert first[c] == sccs[c];
    assert c == a;
    if b < |first| { InPrefixGroup(first, sccs, b, y); }
  }

  lemma InGroup(sccs: seq<seq<Node>>, x: Node) returns (c: nat)
    requires x in Members(sccs)
    ensures c < |sccs| && x in sccs[c]
  {
    c :| c < |sccs| && x in sccs[c];
  }

  lemma InPrefixGroup(first: seq<seq<Node>>, sccs: seq<seq<Node>>, b: nat, y: Node)
    requires first <= sccs && b < |first| && y in sccs[b]
    ensures y in Members(first)
  {
    assert y in first[b];
  }

  lemma PrefixGroups(adj: Adjacency, nodes: seq<Node>, i: nat)
    requires i <= |nodes|
    ensures Components(adj, nodes[..i]) == UpTo(adj, nodes, i).groups
  {
    UniverseIsClosed(adj, nodes);
    assert SetOf(nodes[..i]) <= SetOf(nodes);
    ComponentsAreExplored(adj, Universe(adj, nodes), nodes[..i]);
  }
}
