/** The iterative strongly-connected-components search: its machine, the invariant every step keeps,
    and the theorem that a finished run lists exactly the mutual-reachability classes. */
module Tarjan {
  import opened Digraph
  import opened Sequences

  /** One work-stack entry: a node and the position of its next unexplored edge. */
  datatype Frame = Frame(node: Node, next: nat)

  datatype State = State(
    index: int,
    stack: seq<Node>,
    onStack: set<Node>,
    indexMap: map<Node, int>,
    lowlink: map<Node, int>,
    sccs: seq<seq<Node>>,
    work: seq<Frame>)

  const INITIAL := State(0, [], {}, map[], map[], [], [])

  function Min(a: int, b: int): int {
    if a <= b then a else b
  }

  function Top(s: State): Frame
    requires s.work != []
  {
    s.work[|s.work| - 1]
  }

  /** What is popped when `stack` is popped down to and including the last `root`, in popping order. */
  function Popped(stack: seq<Node>, root: Node): seq<Node> {
    if stack == [] then []
    else
      var n := |stack| - 1;
      if stack[n] == root then [root] else [stack[n]] + Popped(stack[..n], root)
  }

  /** What is left on the stack then. */
  function Kept(stack: seq<Node>, root: Node): seq<Node> {
    if stack == [] then []
    else
      var n := |stack| - 1;
      if stack[n] == root then stack[..n] else Kept(stack[..n], root)
  }

  // ----- the machine -----------------------------------------------------------------------------

  /** First visit of the top node: number it and put it on the component stack. */
  function Enter(s: State): State
    requires s.work != []
  {
    var v := Top(s).node;
    if Top(s).next == 0 then
      s.(indexMap := s.indexMap[v := s.index], lowlink := s.lowlink[v := s.index], index := s.index + 1,
         stack := s.stack + [v], onStack := s.onStack + {v})
    else s
  }

  /** The nodes of the top two frames have numbers and lowlinks. */
  predicate Numbered(s: State) {
    var n := |s.work|;
    && s.lowlink.Keys == s.indexMap.Keys
    && (n >= 1 ==> s.work[n - 1].node in s.indexMap)
    && (n >= 2 ==> s.work[n - 2].node in s.indexMap)
  }

  /** Follow the next edge of the top node. */
  function Scan(adj: Adjacency, s: State): State
    requires s.work != [] && Numbered(s) && Top(s).next < |Neighbors(adj, Top(s).node)|
  {
    var v, n := Top(s).node, |s.work| - 1;
    var w := Neighbors(adj, v)[Top(s).next];
    var t := s.(work := s.work[n := Frame(v, Top(s).next + 1)]);
    if w !in s.indexMap then t.(work := t.work + [Frame(w, 0)])
    else if w in s.onStack then t.(lowlink := t.lowlink[v := Min(t.lowlink[v], t.indexMap[w])])
    else t
  }

  /** Close the component of the top node if the top node is its root. */
  function Emit(s: State): State
    requires s.work != [] && Numbered(s)
  {
    var v := Top(s).node;
    if s.lowlink[v] == s.indexMap[v] then
      var scc := Popped(s.stack, v);
      s.(sccs := s.sccs + [scc], stack := Kept(s.stack, v), onStack := s.onStack - SetOf(scc))
    else s
  }

  /** Leave the top node and fold its lowlink into its parent's, whether or not it was a root. */
  function Return(s: State): State
    requires s.work != [] && Numbered(s)
  {
    var v := Top(s).node;
    var t := s.(work := s.work[..|s.work| - 1]);
    if t.work == [] then t
    else
      var parent := Top(t).node;
      t.(lowlink := t.lowlink[parent := Min(t.lowlink[parent], t.lowlink[v])])
  }

  // ----- the invariant ---------------------------------------------------------------------------
  // All the predicates below speak of a state whose frames have all been entered.

  ghost predicate Shape(s: State) {
    && s.lowlink.Keys == s.indexMap.Keys
    && s.onStack <= s.indexMap.Keys
    && (forall x :: x in s.indexMap ==> s.indexMap[x] < s.index)
    && (forall k :: 0 <= k < |s.work| ==> s.work[k].node in s.onStack)
  }

  /** The number of frame `k`'s node. */
  ghost function Num(s: State, k: int): int
    requires Shape(s) && 0 <= k < |s.work|
  {
    s.indexMap[s.work[k].node]
  }

  ghost predicate Sorted(s: State) {
    && s.onStack == SetOf(s.stack)
    && s.onStack <= s.indexMap.Keys
    && (forall i, j {:trigger s.indexMap[s.stack[i]], s.indexMap[s.stack[j]]} ::
          0 <= i < j < |s.stack| ==> s.indexMap[s.stack[i]] < s.indexMap[s.stack[j]])
  }

  /** Frame `k` has explored a prefix of its edges, the last of them being the edge to frame `k + 1`. */
  ghost predicate FrameAt(adj: Adjacency, s: State, k: int)
    requires 0 <= k < |s.work|
  {
    var ns := Neighbors(adj, s.work[k].node);
    && s.work[k].next <= |ns|
    && (k + 1 < |s.work| ==> s.work[k].next >= 1 && ns[s.work[k].next - 1] == s.work[k + 1].node)
  }

  ghost predicate Frames(adj: Adjacency, s: State)
    requires Shape(s)
  {
    && (forall k {:trigger FrameAt(adj, s, k)} :: 0 <= k < |s.work| ==> FrameAt(adj, s, k))
    && (forall k, l {:trigger Num(s, k), Num(s, l)} :: 0 <= k < l < |s.work| ==> Num(s, k) < Num(s, l))
  }

  /** If stack node `a` was numbered after frame `k`'s node, it is reachable from it. */
  ghost predicate BelowAt(adj: Adjacency, s: State, k: int, a: Node)
    requires Shape(s) && 0 <= k < |s.work| && a in s.onStack
  {
    Num(s, k) <= s.indexMap[a] ==> Reach(adj, s.work[k].node, a)
  }

  ghost predicate Below(adj: Adjacency, s: State)
    requires Shape(s)
  {
    forall k, a {:trigger BelowAt(adj, s, k, a)} :: 0 <= k < |s.work| && a in s.onStack ==> BelowAt(adj, s, k, a)
  }

  /** `a` reaches a node of the work path numbered no later than `a`. */
  ghost predicate Climbs(adj: Adjacency, s: State, a: Node)
    requires Shape(s) && a in s.indexMap
  {
    exists k {:trigger Num(s, k)} :: 0 <= k < |s.work| && Num(s, k) <= s.indexMap[a] && Reach(adj, a, s.work[k].node)
  }

  ghost predicate Up(adj: Adjacency, s: State)
    requires Shape(s)
  {
    forall a {:trigger Climbs(adj, s, a)} :: a in s.onStack ==> Climbs(adj, s, a)
  }

  /** The lowlink of `a` is the number of a stack node that `a` reaches, and at most its own number. */
  ghost predicate LowAt(adj: Adjacency, s: State, a: Node)
    requires Shape(s) && a in s.indexMap
  {
    && s.lowlink[a] <= s.indexMap[a]
    && exists b :: b in s.onStack && s.indexMap[b] == s.lowlink[a] && Reach(adj, a, b)
  }

  ghost predicate Low(adj: Adjacency, s: State)
    requires Shape(s)
  {
    forall a {:trigger LowAt(adj, s, a)} :: a in s.onStack ==> LowAt(adj, s, a)
  }

  /** The edge from `a` to `b` has been followed. */
  ghost predicate Scanned(adj: Adjacency, s: State, a: Node, b: Node) {
    && Edge(adj, a, b)
    && forall k :: 0 <= k < |s.work| && s.work[k].node == a && s.work[k].next <= |Neighbors(adj, a)| ==>
         b in Neighbors(adj, a)[..s.work[k].next]
  }

  ghost predicate Seen(adj: Adjacency, s: State) {
    forall a, b {:trigger Scanned(adj, s, a, b)} :: a in s.indexMap && Scanned(adj, s, a, b) ==> b in s.indexMap
  }

  /** `a` was numbered while frame `k` was the innermost one numbered so far that is still open. */
  ghost predicate InSegment(s: State, k: int, a: Node)
    requires Shape(s)
  {
    && 0 <= k < |s.work|
    && a in s.onStack
    && Num(s, k) <= s.indexMap[a]
    && (k + 1 < |s.work| ==> s.indexMap[a] < Num(s, k + 1))
  }

  /** A frame's lowlink accounts for every followed edge of its segment that ends on the stack. */
  ghost predicate Cover(adj: Adjacency, s: State)
    requires Shape(s)
  {
    forall k, a, b {:trigger InSegment(s, k, a), Scanned(adj, s, a, b)} ::
      InSegment(s, k, a) && b in s.onStack && Scanned(adj, s, a, b) ==> s.lowlink[s.work[k].node] <= s.indexMap[b]
  }

  function Members(sccs: seq<seq<Node>>): set<Node> {
    set i, x | 0 <= i < |sccs| && x in sccs[i] :: x
  }

  /** Emitted nodes are exactly the numbered ones off the stack, and no edge leaves them. */
  ghost predicate Done(adj: Adjacency, s: State) {
    && s.indexMap.Keys == s.onStack + Members(s.sccs)
    && s.onStack !! Members(s.sccs)
    && EdgeClosed(adj, Members(s.sccs))
  }

  /** Group `i` is a class, is new, and its edges lead into the groups listed so far. */
  ghost predicate GroupAt(adj: Adjacency, sccs: seq<seq<Node>>, i: nat)
    requires i < |sccs|
  {
    && IsClass(adj, sccs[i])
    && SetOf(sccs[i]) !! Members(sccs[..i])
    && EdgeClosed(adj, Members(sccs[..i + 1]))
  }

  ghost predicate Groups(adj: Adjacency, sccs: seq<seq<Node>>) {
    forall i {:trigger GroupAt(adj, sccs, i)} :: 0 <= i < |sccs| ==> GroupAt(adj, sccs, i)
  }

  ghost predicate FromRoots(adj: Adjacency, nodes: seq<Node>, x: Node) {
    exists r :: r in nodes && Reach(adj, r, x)
  }

  ghost predicate Origin(adj: Adjacency, nodes: seq<Node>, s: State) {
    forall x {:trigger FromRoots(adj, nodes, x)} :: x in s.indexMap ==> FromRoots(adj, nodes, x)
  }

  ghost predicate Live(adj: Adjacency, nodes: seq<Node>, s: State) {
    && Shape(s) && Sorted(s) && Frames(adj, s) && Below(adj, s) && Up(adj, s) && Low(adj, s)
    && Seen(adj, s) && Cover(adj, s) && Done(adj, s) && Groups(adj, s.sccs) && Origin(adj, nodes, s)
  }

  /** A loop-head state whose top frame is fresh, seen before the fresh frame was pushed. */
  function Unpushed(s: State): State
    requires s.work != []
  {
    var n := |s.work| - 1;
    if n == 0 then s.(work := [])
    else
      var next := s.work[n - 1].next;
      s.(work := s.work[..n - 1] + [Frame(s.work[n - 1].node, if next > 0 then next - 1 else 0)])
  }

  // ----- entering a node -------------------------------------------------------------------------

  /** `t` is `b` after following an edge to the unnumbered node `v` and numbering `v`. */
  ghost predicate Entered(adj: Adjacency, b: State, v: Node, t: State) {
    var n := |b.work|;
    && v !in b.indexMap
    && t == b.(index := b.index + 1, stack := b.stack + [v], onStack := b.onStack + {v},
               indexMap := b.indexMap[v := b.index], lowlink := b.lowlink[v := b.index], work := t.work)
    && |t.work| == n + 1 && t.work[n] == Frame(v, 0)
    && (n > 0 ==>
          && t.work[..n - 1] == b.work[..n - 1]
          && t.work[n - 1] == Frame(b.work[n - 1].node, b.work[n - 1].next + 1)
          && b.work[n - 1].next < |Neighbors(adj, b.work[n - 1].node)|
          && Neighbors(adj, b.work[n - 1].node)[b.work[n - 1].next] == v)
  }

  /** What holds at the head of the inner loop: the top frame may be fresh. */
  ghost predicate Head(adj: Adjacency, nodes: seq<Node>, s: State) {
    if s.work == [] || Top(s).next > 0 then Live(adj, nodes, s)
    else
      && Live(adj, nodes, Unpushed(s))
      && Entered(adj, Unpushed(s), Top(s).node, Enter(s))
      && FromRoots(adj, nodes, Top(s).node)
  }

  lemma EnterFrame(adj: Adjacency, b: State, v: Node, t: State, k: int)
    requires Entered(adj, b, v, t) && 0 <= k < |b.work|
    ensures t.work[k].node == b.work[k].node
    ensures t.work[k].next == if k < |b.work| - 1 then b.work[k].next else b.work[k].next + 1
  {
    if k < |b.work| - 1 {
      assert t.work[k] == t.work[..|b.work| - 1][k] == b.work[..|b.work| - 1][k];
    }
  }

  lemma EnterShape(adj: Adjacency, b: State, v: Node, t: State)
    requires Entered(adj, b, v, t) && Shape(b)
    ensures Shape(t)
  {
    forall k | 0 <= k < |t.work|
      ensures t.work[k].node in t.onStack
    {
      if k < |b.work| { EnterFrame(adj, b, v, t, k); }
    }
  }

  lemma EnterNum(adj: Adjacency, b: State, v: Node, t: State, k: int)
    requires Entered(adj, b, v, t) && Shape(b) && Shape(t) && 0 <= k < |t.work|
    ensures Num(t, k) == if k < |b.work| then Num(b, k) else b.index
    ensures t.work[k].node == if k < |b.work| then b.work[k].node else v
  {
    if k < |b.work| { EnterFrame(adj, b, v, t, k); }
  }

  lemma EnterSorted(adj: Adjacency, b: State, v: Node, t: State)
    requires Entered(adj, b, v, t) && Shape(b) && Sorted(b)
    ensures Sorted(t)
  {
    assert forall i :: 0 <= i < |b.stack| ==> b.stack[i] in SetOf(b.stack);
  }

  lemma EnterFrames(adj: Adjacency, b: State, v: Node, t: State)
    requires Entered(adj, b, v, t) && Shape(b) && Shape(t) && Frames(adj, b)
    ensures Frames(adj, t)
  {
    forall k | 0 <= k < |t.work|
      ensures FrameAt(adj, t, k)
    {
      EnterNum(adj, b, v, t, k);
      if k < |b.work| {
        EnterFrame(adj, b, v, t, k);
        assert FrameAt(adj, b, k);
        EnterNum(adj, b, v, t, k + 1);
      }
    }
    forall k, l | 0 <= k < l < |t.work|
      ensures Num(t, k) < Num(t, l)
    {
      EnterNum(adj, b, v, t, k);
      EnterNum(adj, b, v, t, l);
    }
  }

  lemma EnterBelow(adj: Adjacency, b: State, v: Node, t: State)
    requires Entered(adj, b, v, t) && Shape(b) && Shape(t) && Frames(adj, b) && Below(adj, b)
    ensures Below(adj, t)
  {
    var n := |b.work|;
    forall k, a | 0 <= k < |t.work| && a in t.onStack
      ensures BelowAt(adj, t, k, a)
    {
      EnterNum(adj, b, v, t, k);
      if k < n && a != v {
        assert BelowAt(adj, b, k, a);
      } else if k < n {
        var u := b.work[n - 1].node;
        assert Num(b, k) <= Num(b, n - 1);
        assert BelowAt(adj, b, k, u);
        ReachStep(adj, b.work[k].node, u, v);
      } else {
        ReachRefl(adj, v);
      }
    }
  }

  lemma EnterUp(adj: Adjacency, b: State, v: Node, t: State)
    requires Entered(adj, b, v, t) && Shape(b) && Shape(t) && Up(adj, b)
    ensures Up(adj, t)
  {
    forall a | a in t.onStack
      ensures Climbs(adj, t, a)
    {
      if a != v {
        assert Climbs(adj, b, a);
        var k :| 0 <= k < |b.work| && Num(b, k) <= b.indexMap[a] && Reach(adj, a, b.work[k].node);
        EnterNum(adj, b, v, t, k);
      } else {
        ReachRefl(adj, v);
        EnterNum(adj, b, v, t, |b.work|);
      }
    }
  }

  lemma EnterLow(adj: Adjacency, b: State, v: Node, t: State)
    requires Entered(adj, b, v, t) && Shape(b) && Shape(t) && Low(adj, b)
    ensures Low(adj, t)
  {
    forall a | a in t.onStack
      ensures LowAt(adj, t, a)
    {
      if a != v {
        assert LowAt(adj, b, a);
      } else {
        ReachRefl(adj, v);
      }
    }
  }

  lemma EnterScanned(adj: Adjacency, b: State, v: Node, t: State, a: Node, c: Node)
    requires Entered(adj, b, v, t) && Scanned(adj, t, a, c)
    ensures a != v && (Scanned(adj, b, a, c) || c == v)
  {
    var n := |b.work|;
    assert a != v by { assert t.work[n] == Frame(v, 0); }
    if !Scanned(adj, b, a, c) {
      var k :| 0 <= k < n && b.work[k].node == a && b.work[k].next <= |Neighbors(adj, a)|
               && c !in Neighbors(adj, a)[..b.work[k].next];
      EnterFrame(adj, b, v, t, k);
      var ns, i := Neighbors(adj, a), b.work[k].next;
      if k == n - 1 {
        assert ns[..i + 1] == ns[..i] + [ns[i]];
        assert c in ns[..i + 1];
      }
    }
  }

  lemma EnterSeen(adj: Adjacency, b: State, v: Node, t: State)
    requires Entered(adj, b, v, t) && Seen(adj, b)
    ensures Seen(adj, t)
  {
    forall a, c | a in t.indexMap && Scanned(adj, t, a, c)
      ensures c in t.indexMap
    {
      EnterScanned(adj, b, v, t, a, c);
    }
  }

  lemma EnterCover(adj: Adjacency, b: State, v: Node, t: State)
    requires Entered(adj, b, v, t) && Shape(b) && Shape(t) && Low(adj, t) && Cover(adj, b)
    ensures Cover(adj, t)
  {
    forall k, a, c | InSegment(t, k, a) && c in t.onStack && Scanned(adj, t, a, c)
      ensures t.lowlink[t.work[k].node] <= t.indexMap[c]
    {
      EnterScanned(adj, b, v, t, a, c);
      EnterNum(adj, b, v, t, k);
      if k < |b.work| {
        assert LowAt(adj, t, t.work[k].node);
        if c != v {
          EnterNum(adj, b, v, t, k + 1);
          assert InSegment(b, k, a);
        }
      }
    }
  }

  lemma EnterLive(adj: Adjacency, nodes: seq<Node>, b: State, v: Node, t: State)
    requires Entered(adj, b, v, t) && Live(adj, nodes, b) && FromRoots(adj, nodes, v)
    ensures Live(adj, nodes, t)
  {
    EnterShape(adj, b, v, t);
    EnterSorted(adj, b, v, t);
    EnterFrames(adj, b, v, t);
    EnterBelow(adj, b, v, t);
    EnterUp(adj, b, v, t);
    EnterLow(adj, b, v, t);
    EnterSeen(adj, b, v, t);
    EnterCover(adj, b, v, t);
    assert Done(adj, t);
    assert Origin(adj, nodes, t);
  }

  // ----- following an edge to a numbered node ----------------------------------------------------

  /** `t` is `s` after its top node `v` followed its next edge, to the numbered node `w`. */
  ghost predicate Followed(adj: Adjacency, s: State, v: Node, w: Node, t: State) {
    var n := |s.work| - 1;
    && n >= 0 && s.work[n].node == v
    && s.work[n].next < |Neighbors(adj, v)| && Neighbors(adj, v)[s.work[n].next] == w
    && w in s.indexMap && v in s.lowlink
    && t.work == s.work[n := Frame(v, s.work[n].next + 1)]
    && t == s.(lowlink := t.lowlink, work := t.work)
    && t.lowlink == if w in s.onStack then s.lowlink[v := Min(s.lowlink[v], s.indexMap[w])] else s.lowlink
  }

  lemma FollowFrames(adj: Adjacency, s: State, v: Node, w: Node, t: State)
    requires Followed(adj, s, v, w, t) && Shape(s) && Frames(adj, s)
    ensures Shape(t) && Frames(adj, t)
    ensures forall k :: 0 <= k < |s.work| ==> Num(t, k) == Num(s, k) && t.work[k].node == s.work[k].node
  {
    forall k | 0 <= k < |t.work|
      ensures FrameAt(adj, t, k)
    {
      assert FrameAt(adj, s, k);
    }
    forall k, l | 0 <= k < l < |t.work|
      ensures Num(t, k) < Num(t, l)
    {
      assert Num(s, k) < Num(s, l);
    }
  }

  lemma FollowReach(adj: Adjacency, s: State, v: Node, w: Node, t: State)
    requires Followed(adj, s, v, w, t) && Shape(s) && Shape(t) && Below(adj, s) && Up(adj, s)
    ensures Below(adj, t) && Up(adj, t)
  {
    forall k, a | 0 <= k < |t.work| && a in t.onStack
      ensures BelowAt(adj, t, k, a)
    {
      assert BelowAt(adj, s, k, a);
    }
    forall a | a in t.onStack
      ensures Climbs(adj, t, a)
    {
      assert Climbs(adj, s, a);
      var k :| 0 <= k < |s.work| && Num(s, k) <= s.indexMap[a] && Reach(adj, a, s.work[k].node);
      assert Num(t, k) == Num(s, k);
    }
  }

  lemma FollowLow(adj: Adjacency, s: State, v: Node, w: Node, t: State)
    requires Followed(adj, s, v, w, t) && Shape(s) && Shape(t) && Low(adj, s)
    ensures Low(adj, t)
  {
    forall a | a in t.onStack
      ensures LowAt(adj, t, a)
    {
      assert LowAt(adj, s, a);
      if a == v && w in s.onStack {
        ReachEdge(adj, v, w);
      }
    }
  }

  lemma FollowScanned(adj: Adjacency, s: State, v: Node, w: Node, t: State, a: Node, c: Node)
    requires Followed(adj, s, v, w, t) && Scanned(adj, t, a, c)
    ensures Scanned(adj, s, a, c) || (a == v && c == w)
  {
    if !Scanned(adj, s, a, c) {
      var k :| 0 <= k < |s.work| && s.work[k].node == a && s.work[k].next <= |Neighbors(adj, a)|
               && c !in Neighbors(adj, a)[..s.work[k].next];
      var ns, i := Neighbors(adj, a), s.work[k].next;
      assert t.work[k].node == a;
      if k == |s.work| - 1 {
        assert ns[..i + 1] == ns[..i] + [ns[i]];
        assert c in ns[..i + 1];
      }
    }
  }

  lemma FollowSeen(adj: Adjacency, s: State, v: Node, w: Node, t: State)
    requires Followed(adj, s, v, w, t) && Seen(adj, s)
    ensures Seen(adj, t)
  {
    forall a, c | a in t.indexMap && Scanned(adj, t, a, c)
      ensures c in t.indexMap
    {
      FollowScanned(adj, s, v, w, t, a, c);
    }
  }

  lemma FollowCover(adj: Adjacency, s: State, v: Node, w: Node, t: State)
    requires Followed(adj, s, v, w, t) && Shape(s) && Shape(t) && Frames(adj, s) && Cover(adj, s)
    ensures Cover(adj, t)
  {
    var n := |s.work| - 1;
    assert forall j {:trigger Num(s, j)} :: 0 <= j <= n ==> Num(s, j) <= Num(s, n);
    forall k, a, c | InSegment(t, k, a) && c in t.onStack && Scanned(adj, t, a, c)
      ensures t.lowlink[t.work[k].node] <= t.indexMap[c]
    {
      FollowScanned(adj, s, v, w, t, a, c);
      assert t.work[k].node == s.work[k].node;
      assert Num(s, k) == Num(t, k);
      if k < n { assert Num(s, k + 1) == Num(t, k + 1); }
      assert InSegment(s, k, a);
    }
  }

  lemma FollowLive(adj: Adjacency, nodes: seq<Node>, s: State, v: Node, w: Node, t: State)
    requires Followed(adj, s, v, w, t) && Live(adj, nodes, s)
    ensures Live(adj, nodes, t)
  {
    FollowFrames(adj, s, v, w, t);
    FollowReach(adj, s, v, w, t);
    FollowLow(adj, s, v, w, t);
    FollowSeen(adj, s, v, w, t);
    FollowCover(adj, s, v, w, t);
    assert Sorted(t) && Done(adj, t) && Origin(adj, nodes, t);
  }

  // ----- leaving a node --------------------------------------------------------------------------

  /** The top frame of `s` has no edge left to follow. */
  ghost predicate Exhausted(adj: Adjacency, s: State) {
    s.work != [] && Top(s).next == |Neighbors(adj, Top(s).node)|
  }

  lemma PopFrame(s: State, t: State, k: int)
    requires s.work != [] && t.work == s.work[..|s.work| - 1] && t.indexMap == s.indexMap && 0 <= k < |t.work|
    requires Shape(s) && Shape(t)
    ensures t.work[k] == s.work[k] && Num(t, k) == Num(s, k)
  {
  }

  lemma PopFrames(adj: Adjacency, s: State, t: State)
    requires Shape(s) && Frames(adj, s) && Shape(t)
    requires s.work != [] && t.work == s.work[..|s.work| - 1] && t.indexMap == s.indexMap
    ensures Frames(adj, t)
  {
    forall k | 0 <= k < |t.work|
      ensures FrameAt(adj, t, k)
    {
      assert FrameAt(adj, s, k);
    }
    forall k, l | 0 <= k < l < |t.work|
      ensures Num(t, k) < Num(t, l)
    {
      assert Num(s, k) < Num(s, l);
    }
  }

  lemma PopBelow(adj: Adjacency, s: State, t: State)
    requires Shape(s) && Below(adj, s) && Shape(t)
    requires s.work != [] && t.work == s.work[..|s.work| - 1] && t.indexMap == s.indexMap && t.onStack <= s.onStack
    ensures Below(adj, t)
  {
    forall k, a | 0 <= k < |t.work| && a in t.onStack
      ensures BelowAt(adj, t, k, a)
    {
      assert BelowAt(adj, s, k, a);
    }
  }

  lemma PopScanned(adj: Adjacency, s: State, t: State, a: Node, c: Node)
    requires Exhausted(adj, s) && t.work == s.work[..|s.work| - 1] && Scanned(adj, t, a, c)
    ensures Scanned(adj, s, a, c)
  {
    forall k | 0 <= k < |s.work| && s.work[k].node == a && s.work[k].next <= |Neighbors(adj, a)|
      ensures c in Neighbors(adj, a)[..s.work[k].next]
    {
      if k < |s.work| - 1 {
        assert t.work[k] == s.work[k];
      } else {
        assert Neighbors(adj, a)[..s.work[k].next] == Neighbors(adj, a);
      }
    }
  }

  lemma PopSeen(adj: Adjacency, s: State, t: State)
    requires Exhausted(adj, s) && t.work == s.work[..|s.work| - 1] && t.indexMap == s.indexMap && Seen(adj, s)
    ensures Seen(adj, t)
  {
    forall a, c | a in t.indexMap && Scanned(adj, t, a, c)
      ensures c in t.indexMap
    {
      PopScanned(adj, s, t, a, c);
    }
  }

  /** Every stack node climbs at least to the bottom of the work path. */
  lemma BottomIsLowest(adj: Adjacency, s: State, a: Node)
    requires Shape(s) && Frames(adj, s) && Up(adj, s) && a in s.onStack
    ensures s.work != [] && Num(s, 0) <= s.indexMap[a]
  {
    assert Climbs(adj, s, a);
    var k :| 0 <= k < |s.work| && Num(s, k) <= s.indexMap[a] && Reach(adj, a, s.work[k].node);
    assert k == 0 || Num(s, 0) < Num(s, k);
  }

  // ----- leaving a node that is not the root of its component ------------------------------------

  ghost predicate Folded(adj: Adjacency, s: State, t: State)
    requires Shape(s)
  {
    && Exhausted(adj, s) && |s.work| >= 2
    && s.lowlink[Top(s).node] < s.indexMap[Top(s).node]
    && t == Return(s)
  }

  lemma NonRootHasParent(adj: Adjacency, s: State)
    requires Shape(s) && Frames(adj, s) && Up(adj, s) && Low(adj, s)
    requires s.work != [] && s.lowlink[Top(s).node] != s.indexMap[Top(s).node]
    ensures s.lowlink[Top(s).node] < s.indexMap[Top(s).node] && |s.work| >= 2
  {
    var v := Top(s).node;
    assert LowAt(adj, s, v);
    var b :| b in s.onStack && s.indexMap[b] == s.lowlink[v] && Reach(adj, v, b);
    BottomIsLowest(adj, s, b);
    assert Num(s, |s.work| - 1) == s.indexMap[v];
  }

  lemma FoldFacts(adj: Adjacency, s: State, t: State)
    requires Shape(s) && Folded(adj, s, t)
    ensures Shape(t) && t == s.(work := t.work, lowlink := t.lowlink) && t.work == s.work[..|s.work| - 1]
    ensures t.lowlink == s.lowlink[Top(t).node := Min(s.lowlink[Top(t).node], s.lowlink[Top(s).node])]
    ensures Top(t) == s.work[|s.work| - 2]
  {
  }

  /** The top node reaches a strictly lower frame, through the stack node its lowlink names. */
  lemma NonRootClimbs(adj: Adjacency, s: State) returns (j: nat)
    requires Shape(s) && Up(adj, s) && Low(adj, s) && s.work != []
    requires s.lowlink[Top(s).node] < s.indexMap[Top(s).node]
    ensures j < |s.work| - 1 && Num(s, j) < Num(s, |s.work| - 1) && Reach(adj, Top(s).node, s.work[j].node)
  {
    var v := Top(s).node;
    assert LowAt(adj, s, v);
    var b :| b in s.onStack && s.indexMap[b] == s.lowlink[v] && Reach(adj, v, b);
    assert Climbs(adj, s, b);
    var k :| 0 <= k < |s.work| && Num(s, k) <= s.indexMap[b] && Reach(adj, b, s.work[k].node);
    ReachTrans(adj, v, b, s.work[k].node);
    j := k;
  }

  lemma FoldUp(adj: Adjacency, s: State, t: State)
    requires Shape(s) && Up(adj, s) && Low(adj, s) && Folded(adj, s, t) && Shape(t)
    ensures Up(adj, t)
  {
    FoldFacts(adj, s, t);
    var v, m := Top(s).node, |t.work|;
    var j := NonRootClimbs(adj, s);
    PopFrame(s, t, j);
    forall a | a in t.onStack
      ensures Climbs(adj, t, a)
    {
      assert Climbs(adj, s, a);
      var k :| 0 <= k < |s.work| && Num(s, k) <= s.indexMap[a] && Reach(adj, a, s.work[k].node);
      if k < m {
        PopFrame(s, t, k);
      } else {
        ReachTrans(adj, a, v, t.work[j].node);
      }
    }
  }

  lemma FoldLow(adj: Adjacency, s: State, t: State)
    requires Shape(s) && Frames(adj, s) && Below(adj, s) && Low(adj, s) && Folded(adj, s, t) && Shape(t)
    ensures Low(adj, t)
  {
    FoldFacts(adj, s, t);
    var v, p, m := Top(s).node, Top(t).node, |t.work|;
    forall a | a in t.onStack
      ensures LowAt(adj, t, a)
    {
      assert LowAt(adj, s, a);
      if a == p && t.lowlink[p] != s.lowlink[p] {
        assert LowAt(adj, s, v);
        var b :| b in s.onStack && s.indexMap[b] == s.lowlink[v] && Reach(adj, v, b);
        assert Num(s, m - 1) < Num(s, m);
        assert BelowAt(adj, s, m - 1, v);
        ReachTrans(adj, p, v, b);
      }
    }
  }

  lemma FoldCover(adj: Adjacency, s: State, t: State)
    requires Shape(s) && Frames(adj, s) && Cover(adj, s) && Folded(adj, s, t) && Shape(t)
    ensures Cover(adj, t)
  {
    FoldFacts(adj, s, t);
    var m := |t.work|;
    forall k, a, c | InSegment(t, k, a) && c in t.onStack && Scanned(adj, t, a, c)
      ensures t.lowlink[t.work[k].node] <= t.indexMap[c]
    {
      PopScanned(adj, s, t, a, c);
      PopFrame(s, t, k);
      if k < m - 1 {
        PopFrame(s, t, k + 1);
        assert InSegment(s, k, a);
      } else {
        assert InSegment(s, k, a) || InSegment(s, m, a);
      }
    }
  }

  lemma FoldLive(adj: Adjacency, nodes: seq<Node>, s: State, t: State)
    requires Live(adj, nodes, s) && Folded(adj, s, t)
    ensures Live(adj, nodes, t)
  {
    FoldFacts(adj, s, t);
    PopFrames(adj, s, t);
    PopBelow(adj, s, t);
    FoldUp(adj, s, t);
    FoldLow(adj, s, t);
    PopSeen(adj, s, t);
    FoldCover(adj, s, t);
    assert Sorted(t) && Done(adj, t) && Origin(adj, nodes, t);
  }

  // ----- leaving the root of a component ---------------------------------------------------------

  ghost predicate Closed(adj: Adjacency, s: State, t: State)
    requires Shape(s)
  {
    && Exhausted(adj, s)
    && s.lowlink[Top(s).node] == s.indexMap[Top(s).node]
    && t == Return(Emit(s))
  }

  /** The stack nodes numbered from `v` on. */
  ghost function Segment(s: State, v: Node): set<Node>
    requires Shape(s) && v in s.indexMap
  {
    set a | a in s.onStack && s.indexMap[v] <= s.indexMap[a]
  }

  lemma {:induction false} PopSplits(stack: seq<Node>, root: Node)
    ensures var kept, popped := Kept(stack, root), Popped(stack, root);
      && |kept| + |popped| == |stack| && kept == stack[..|kept|]
      && (forall i :: 0 <= i < |popped| ==> popped[i] == stack[|stack| - 1 - i])
      && (root in stack ==> |kept| < |stack| && stack[|kept|] == root)
  {
    if stack == [] {
    } else {
      var n := |stack| - 1;
      if stack[n] != root {
        var front := stack[..n];
        PopSplits(front, root);
        assert root in stack ==> root in front;
        var kept, popped, rest := Kept(stack, root), Popped(stack, root), Popped(front, root);
        assert kept == Kept(front, root) && popped == [stack[n]] + rest;
        hide Kept, Popped;
        assert front[..|kept|] == stack[..|kept|];
        forall i | 0 <= i < |popped| ensures popped[i] == stack[n - i] {
          if i > 0 { assert popped[i] == rest[i - 1] == front[n - i]; }
        }
      }
    }
  }

  lemma KeptIsLower(s: State, v: Node, i: int)
    requires Shape(s) && Sorted(s) && v in s.onStack && 0 <= i < |s.stack|
    ensures s.stack[i] in s.onStack
    ensures s.stack[i] in Segment(s, v) <==> |Kept(s.stack, v)| <= i
  {
    PopSplits(s.stack, v);
    assert v in SetOf(s.stack) && s.stack[i] in SetOf(s.stack);
    assert s.indexMap[s.stack[|Kept(s.stack, v)|]] == s.indexMap[v];
  }

  lemma PopMembers(s: State, v: Node)
    requires Shape(s) && Sorted(s) && v in s.onStack
    ensures forall a :: a in Popped(s.stack, v) ==> a in Segment(s, v)
    ensures forall a :: a in Kept(s.stack, v) ==> a in s.onStack - Segment(s, v)
  {
    hide Kept, Popped, Sorted;
    var kept, popped, m := Kept(s.stack, v), Popped(s.stack, v), |s.stack| - 1;
    PopSplits(s.stack, v);
    forall i | 0 <= i < |popped|
      ensures popped[i] in Segment(s, v)
    {
      KeptIsLower(s, v, m - i);
    }
    forall i | 0 <= i < |kept|
      ensures kept[i] in s.onStack - Segment(s, v)
    {
      KeptIsLower(s, v, i);
    }
  }

  lemma PopCovers(s: State, v: Node, a: Node)
    requires Shape(s) && Sorted(s) && v in s.onStack && a in s.onStack
    ensures a in Popped(s.stack, v) || a in Kept(s.stack, v)
  {
    var kept, popped, m := Kept(s.stack, v), Popped(s.stack, v), |s.stack| - 1;
    PopSplits(s.stack, v);
    assert a in s.stack;
    var i :| 0 <= i < |s.stack| && s.stack[i] == a;
    assert if |kept| <= i then a == popped[m - i] else a == kept[i];
  }

  lemma PopIsSegment(s: State, v: Node)
    requires Shape(s) && Sorted(s) && v in s.onStack
    ensures SetOf(Popped(s.stack, v)) == Segment(s, v)
    ensures SetOf(Kept(s.stack, v)) == s.onStack - Segment(s, v)
  {
    PopMembers(s, v);
    forall a | a in s.onStack
      ensures a in Popped(s.stack, v) || a in Kept(s.stack, v)
    {
      PopCovers(s, v, a);
    }
  }

  /** After a component is closed, folding its root's lowlink into the parent changes nothing. */
  lemma FoldIsHarmless(adj: Adjacency, s: State)
    requires Shape(s) && Frames(adj, s) && Low(adj, s) && |s.work| >= 2
    requires s.lowlink[Top(s).node] == s.indexMap[Top(s).node]
    ensures Return(Emit(s)).lowlink == s.lowlink
  {
    var n := |s.work| - 1;
    var p := s.work[n - 1].node;
    assert Num(s, n - 1) < Num(s, n);
    assert LowAt(adj, s, p);
  }

  lemma CloseFacts(adj: Adjacency, s: State, t: State)
    requires Shape(s) && Sorted(s) && Frames(adj, s) && Low(adj, s) && Closed(adj, s, t)
    ensures t == s.(work := s.work[..|s.work| - 1], stack := Kept(s.stack, Top(s).node),
                    onStack := s.onStack - Segment(s, Top(s).node),
                    sccs := s.sccs + [Popped(s.stack, Top(s).node)])
    ensures Shape(t)
  {
    var v := Top(s).node;
    PopIsSegment(s, v);
    if |s.work| >= 2 { FoldIsHarmless(adj, s); }
    assert t.lowlink == s.lowlink;
    forall k | 0 <= k < |t.work|
      ensures t.work[k].node in t.onStack
    {
      assert Num(s, k) < Num(s, |s.work| - 1);
    }
  }

  lemma CloseSorted(s: State, t: State, v: Node)
    requires Shape(s) && Sorted(s) && v in s.onStack && Shape(t)
    requires t.stack == Kept(s.stack, v) && t.onStack == s.onStack - Segment(s, v) && t.indexMap == s.indexMap
    ensures Sorted(t)
  {
    PopIsSegment(s, v);
    PopSplits(s.stack, v);
  }

  lemma CloseUp(adj: Adjacency, s: State, t: State, v: Node)
    requires Shape(s) && Up(adj, s) && Shape(t) && s.work != [] && v == Top(s).node
    requires t.work == s.work[..|s.work| - 1] && t.onStack == s.onStack - Segment(s, v) && t.indexMap == s.indexMap
    ensures Up(adj, t)
  {
    forall a | a in t.onStack
      ensures Climbs(adj, t, a)
    {
      assert Climbs(adj, s, a);
      var k :| 0 <= k < |s.work| && Num(s, k) <= s.indexMap[a] && Reach(adj, a, s.work[k].node);
      assert k < |t.work| by { assert Num(s, |s.work| - 1) == s.indexMap[v]; }
      PopFrame(s, t, k);
    }
  }

  lemma CloseLow(adj: Adjacency, s: State, t: State, v: Node)
    requires Shape(s) && Low(adj, s) && Shape(t) && v in s.indexMap
    requires t.onStack == s.onStack - Segment(s, v) && t.indexMap == s.indexMap && t.lowlink == s.lowlink
    ensures Low(adj, t)
  {
    forall a | a in t.onStack
      ensures LowAt(adj, t, a)
    {
      assert LowAt(adj, s, a);
    }
  }

  lemma CloseCover(adj: Adjacency, s: State, t: State, v: Node)
    requires Shape(s) && Cover(adj, s) && Shape(t) && Exhausted(adj, s) && v == Top(s).node
    requires t.work == s.work[..|s.work| - 1] && t.onStack == s.onStack - Segment(s, v)
    requires t.indexMap == s.indexMap && t.lowlink == s.lowlink
    ensures Cover(adj, t)
  {
    forall k, a, c | InSegment(t, k, a) && c in t.onStack && Scanned(adj, t, a, c)
      ensures t.lowlink[t.work[k].node] <= t.indexMap[c]
    {
      PopScanned(adj, s, t, a, c);
      PopFrame(s, t, k);
      assert s.work[k + 1] == if k + 1 < |t.work| then t.work[k + 1] else Top(s);
      assert InSegment(s, k, a);
    }
  }

  /** Every edge out of a segment whose lowlink is its root's number stays in the segment or is done. */
  lemma SegmentCloses(adj: Adjacency, s: State, a: Node, c: Node)
    requires Shape(s) && Frames(adj, s) && Seen(adj, s) && Cover(adj, s) && Done(adj, s) && Exhausted(adj, s)
    requires s.lowlink[Top(s).node] == s.indexMap[Top(s).node]
    requires a in Segment(s, Top(s).node) && Edge(adj, a, c)
    ensures c in Segment(s, Top(s).node) || c in Members(s.sccs)
  {
    var n, v := |s.work| - 1, Top(s).node;
    assert Scanned(adj, s, a, c) by {
      forall k | 0 <= k < |s.work| && s.work[k].node == a && s.work[k].next <= |Neighbors(adj, a)|
        ensures c in Neighbors(adj, a)[..s.work[k].next]
      {
        assert Num(s, n) <= Num(s, k);
        assert k == n;
        assert Neighbors(adj, a)[..s.work[k].next] == Neighbors(adj, a);
      }
    }
    if c in s.onStack {
      assert InSegment(s, n, a);
    }
  }

  lemma SegmentConnected(adj: Adjacency, s: State, a: Node)
    requires Shape(s) && Frames(adj, s) && Below(adj, s) && Up(adj, s) && s.work != []
    requires a in Segment(s, Top(s).node)
    ensures Mutual(adj, Top(s).node, a)
  {
    var n, v := |s.work| - 1, Top(s).node;
    assert BelowAt(adj, s, n, a);
    assert Climbs(adj, s, a);
    var k :| 0 <= k < |s.work| && Num(s, k) <= s.indexMap[a] && Reach(adj, a, s.work[k].node);
    assert BelowAt(adj, s, k, v);
    assert k == n || Num(s, k) < Num(s, n);
    ReachTrans(adj, a, s.work[k].node, v);
  }

  lemma SegmentIsMaximal(adj: Adjacency, s: State, a: Node, w: Node)
    requires Shape(s) && Frames(adj, s) && Seen(adj, s) && Cover(adj, s) && Done(adj, s) && Exhausted(adj, s)
    requires s.lowlink[Top(s).node] == s.indexMap[Top(s).node]
    requires a in Segment(s, Top(s).node) && Mutual(adj, a, w)
    ensures w in Segment(s, Top(s).node)
  {
    var seg, done := Segment(s, Top(s).node), Members(s.sccs);
    forall x, y | x in seg + done && Edge(adj, x, y)
      ensures y in seg + done
    {
      if x in seg { SegmentCloses(adj, s, x, y); }
    }
    ReachStaysClosed(adj, seg + done, a, w);
    if w in done {
      ReachStaysClosed(adj, done, w, a);
    }
  }

  lemma SegmentIsMutual(adj: Adjacency, s: State, u: Node, w: Node)
    requires Shape(s) && Frames(adj, s) && Below(adj, s) && Up(adj, s)
    requires Seen(adj, s) && Cover(adj, s) && Done(adj, s) && Exhausted(adj, s)
    requires s.lowlink[Top(s).node] == s.indexMap[Top(s).node]
    requires u in Segment(s, Top(s).node)
    ensures w in Segment(s, Top(s).node) <==> Mutual(adj, u, w)
  {
    var v := Top(s).node;
    SegmentConnected(adj, s, u);
    if w in Segment(s, v) {
      SegmentConnected(adj, s, w);
      ReachTrans(adj, u, v, w);
      ReachTrans(adj, w, v, u);
    }
    if Mutual(adj, u, w) {
      SegmentIsMaximal(adj, s, u, w);
    }
  }

  lemma PoppedDistinct(s: State, v: Node)
    requires Sorted(s)
    ensures var g := Popped(s.stack, v); forall i, j :: 0 <= i < j < |g| ==> g[i] != g[j]
  {
    PopSplits(s.stack, v);
    var g, m := Popped(s.stack, v), |s.stack| - 1;
    forall i, j | 0 <= i < j < |g|
      ensures g[i] != g[j]
    {
      assert g[i] == s.stack[m - i] && g[j] == s.stack[m - j];
      assert g[i] in SetOf(s.stack) && g[j] in SetOf(s.stack);
      assert s.indexMap[s.stack[m - j]] < s.indexMap[s.stack[m - i]];
    }
  }

  lemma SegmentIsClass(adj: Adjacency, s: State, g: seq<Node>)
    requires Shape(s) && Frames(adj, s) && Below(adj, s) && Up(adj, s)
    requires Seen(adj, s) && Cover(adj, s) && Done(adj, s) && Exhausted(adj, s)
    requires s.lowlink[Top(s).node] == s.indexMap[Top(s).node]
    requires SetOf(g) == Segment(s, Top(s).node)
    requires forall i, j :: 0 <= i < j < |g| ==> g[i] != g[j]
    ensures IsClass(adj, g)
  {
    var v := Top(s).node;
    assert v in SetOf(g);
    forall u, w | u in g
      ensures w in g <==> Mutual(adj, u, w)
    {
      assert u in SetOf(g);
      SegmentIsMutual(adj, s, u, w);
      assert w in g <==> w in SetOf(g);
    }
  }

  lemma MembersSnoc(sccs: seq<seq<Node>>, g: seq<Node>)
    ensures Members(sccs + [g]) == Members(sccs) + SetOf(g)
  {
    var all := sccs + [g];
    forall x
      ensures x in Members(all) <==> x in Members(sccs) || x in g
    {
      if x in g { assert x in all[|sccs|]; }
      if x in Members(sccs) {
        var i :| 0 <= i < |sccs| && x in sccs[i];
        assert x in all[i];
      }
    }
  }

  lemma CloseDone(adj: Adjacency, s: State, t: State, g: seq<Node>)
    requires Shape(s) && Frames(adj, s) && Seen(adj, s) && Cover(adj, s) && Done(adj, s) && Exhausted(adj, s)
    requires s.lowlink[Top(s).node] == s.indexMap[Top(s).node]
    requires SetOf(g) == Segment(s, Top(s).node)
    requires t.indexMap == s.indexMap && t.onStack == s.onStack - SetOf(g) && t.sccs == s.sccs + [g]
    ensures Done(adj, t)
  {
    MembersSnoc(s.sccs, g);
    forall x, y | x in Members(t.sccs) && Edge(adj, x, y)
      ensures y in Members(t.sccs)
    {
      if x in SetOf(g) { SegmentCloses(adj, s, x, y); }
    }
  }

  lemma CloseGroups(adj: Adjacency, s: State, t: State, g: seq<Node>)
    requires Groups(adj, s.sccs) && IsClass(adj, g) && SetOf(g) !! Members(s.sccs)
    requires t.sccs == s.sccs + [g] && Done(adj, t)
    ensures Groups(adj, t.sccs)
  {
    var n := |s.sccs|;
    forall i | 0 <= i < |t.sccs|
      ensures GroupAt(adj, t.sccs, i)
    {
      if i < n {
        assert GroupAt(adj, s.sccs, i);
        assert t.sccs[..i] == s.sccs[..i] && t.sccs[..i + 1] == s.sccs[..i + 1];
      } else {
        assert t.sccs[..i] == s.sccs && t.sccs[..i + 1] == t.sccs;
      }
    }
  }

  lemma CloseLive(adj: Adjacency, nodes: seq<Node>, s: State, t: State)
    requires Live(adj, nodes, s) && Closed(adj, s, t)
    ensures Live(adj, nodes, t)
  {
    var v := Top(s).node;
    var g := Popped(s.stack, v);
    CloseFacts(adj, s, t);
    CloseSorted(s, t, v);
    PopFrames(adj, s, t);
    PopBelow(adj, s, t);
    CloseUp(adj, s, t, v);
    CloseLow(adj, s, t, v);
    PopSeen(adj, s, t);
    CloseCover(adj, s, t, v);
    PopIsSegment(s, v);
    PoppedDistinct(s, v);
    SegmentIsClass(adj, s, g);
    CloseDone(adj, s, t, g);
    CloseGroups(adj, s, t, g);
    assert Origin(adj, nodes, t);
  }

  // ----- whole runs ------------------------------------------------------------------------------

  /** One iteration of the inner loop. */
  ghost function Step(adj: Adjacency, s: State): State
    requires s.work != [] && Numbered(Enter(s))
  {
    var t := Enter(s);
    if Top(t).next < |Neighbors(adj, Top(t).node)| then Scan(adj, t) else Return(Emit(t))
  }

  lemma HeadEntersLive(adj: Adjacency, nodes: seq<Node>, s: State)
    requires s.work != [] && Head(adj, nodes, s)
    ensures Live(adj, nodes, Enter(s)) && Numbered(Enter(s))
    ensures Enter(s).work == s.work
  {
    if Top(s).next == 0 {
      EnterLive(adj, nodes, Unpushed(s), Top(s).node, Enter(s));
    }
  }

  /** The numbered nodes and the one waiting on top of the work path. */
  function Known(s: State): set<Node> {
    s.indexMap.Keys + if s.work == [] then {} else {Top(s).node}
  }

  function Universe(adj: Adjacency, nodes: seq<Node>): set<Node> {
    SetOf(nodes) + set v, w | v in adj && w in adj[v] :: w
  }

  function EdgesLeft(adj: Adjacency, s: State): nat {
    if s.work == [] || Top(s).next > |Neighbors(adj, Top(s).node)| then 0
    else |Neighbors(adj, Top(s).node)| - Top(s).next
  }

  lemma PushIsFresh(adj: Adjacency, s: State, w: Node)
    requires s.work != [] && Numbered(s) && Top(s).next < |Neighbors(adj, Top(s).node)|
    requires w == Neighbors(adj, Top(s).node)[Top(s).next] && w !in s.indexMap
    ensures var t := Scan(adj, s);
      t.work != [] && Top(t) == Frame(w, 0) && Unpushed(t) == s && Entered(adj, s, w, Enter(t))
  {
    assert Unpushed(Scan(adj, s)).work == s.work;
  }

  lemma PushKeepsHead(adj: Adjacency, nodes: seq<Node>, s: State)
    requires s.work != [] && Live(adj, nodes, s) && Numbered(s)
    requires Top(s).next < |Neighbors(adj, Top(s).node)| && Neighbors(adj, Top(s).node)[Top(s).next] !in s.indexMap
    ensures Head(adj, nodes, Scan(adj, s))
  {
    var v := Top(s).node;
    var w := Neighbors(adj, v)[Top(s).next];
    PushIsFresh(adj, s, w);
    assert FromRoots(adj, nodes, v);
    var r :| r in nodes && Reach(adj, r, v);
    ReachStep(adj, r, v, w);
  }

  lemma ScanKeepsHead(adj: Adjacency, nodes: seq<Node>, s: State)
    requires s.work != [] && Live(adj, nodes, s) && Numbered(s) && Top(s).next < |Neighbors(adj, Top(s).node)|
    ensures Head(adj, nodes, Scan(adj, s))
  {
    var v, t := Top(s).node, Scan(adj, s);
    var w := Neighbors(adj, v)[Top(s).next];
    if w in s.indexMap {
      assert Followed(adj, s, v, w, t);
      FollowLive(adj, nodes, s, v, w, t);
    } else {
      PushKeepsHead(adj, nodes, s);
    }
  }

  lemma LeaveIsLive(adj: Adjacency, nodes: seq<Node>, s: State)
    requires s.work != [] && Live(adj, nodes, s) && Numbered(s) && Exhausted(adj, s)
    ensures Live(adj, nodes, Return(Emit(s)))
  {
    var v, t := Top(s).node, Return(Emit(s));
    if s.lowlink[v] == s.indexMap[v] {
      assert Closed(adj, s, t);
      CloseLive(adj, nodes, s, t);
    } else {
      NonRootHasParent(adj, s);
      assert Folded(adj, s, t);
      FoldLive(adj, nodes, s, t);
    }
  }

  lemma LeaveStarted(adj: Adjacency, s: State)
    requires s.work != [] && Numbered(s) && Shape(s) && Frames(adj, s)
    ensures var t := Return(Emit(s)); t.work == [] || Top(t).next > 0
    ensures Top(s).next <= |Neighbors(adj, Top(s).node)|
  {
    assert FrameAt(adj, s, |s.work| - 1);
    if |s.work| >= 2 {
      assert FrameAt(adj, s, |s.work| - 2);
      assert Top(Return(Emit(s))) == s.work[|s.work| - 2];
    }
  }

  lemma LiveIsHead(adj: Adjacency, nodes: seq<Node>, s: State)
    requires Live(adj, nodes, s) && (s.work == [] || Top(s).next > 0)
    ensures Head(adj, nodes, s)
  {
  }

  lemma LeaveKeepsHead(adj: Adjacency, nodes: seq<Node>, s: State)
    requires s.work != [] && Live(adj, nodes, s) && Numbered(s) && Top(s).next >= |Neighbors(adj, Top(s).node)|
    ensures Head(adj, nodes, Return(Emit(s)))
  {
    LeaveStarted(adj, s);
    LeaveIsLive(adj, nodes, s);
    LiveIsHead(adj, nodes, Return(Emit(s)));
  }

  lemma StepKeepsHead(adj: Adjacency, nodes: seq<Node>, s: State)
    requires s.work != [] && Head(adj, nodes, s)
    ensures Numbered(Enter(s)) && Head(adj, nodes, Step(adj, s))
  {
    hide Head, Live, Enter, Scan, Emit, Return, Numbered;
    HeadEntersLive(adj, nodes, s);
    var t := Enter(s);
    if Top(t).next < |Neighbors(adj, Top(t).node)| {
      ScanKeepsHead(adj, nodes, t);
    } else {
      LeaveKeepsHead(adj, nodes, t);
    }
  }

  /** A step never forgets a node, and either meets a new one, or pops a frame, or advances one edge. */
  ghost predicate Progress(adj: Adjacency, s: State, t: State) {
    && Known(s) <= Known(t)
    && (Known(s) < Known(t) || |t.work| < |s.work| || (|t.work| == |s.work| && EdgesLeft(adj, t) < EdgesLeft(adj, s)))
  }

  lemma ScanProgresses(adj: Adjacency, t: State)
    requires t.work != [] && Numbered(t) && Top(t).next < |Neighbors(adj, Top(t).node)|
    ensures Progress(adj, t, Scan(adj, t))
  {
  }

  lemma LeaveProgresses(adj: Adjacency, t: State)
    requires t.work != [] && Numbered(t)
    ensures Progress(adj, t, Return(Emit(t)))
  {
  }

  lemma EnterKnows(adj: Adjacency, s: State)
    requires s.work != []
    ensures Known(Enter(s)) == Known(s) && Enter(s).work == s.work && EdgesLeft(adj, Enter(s)) == EdgesLeft(adj, s)
  {
  }

  lemma StepProgresses(adj: Adjacency, s: State)
    requires s.work != [] && Numbered(Enter(s))
    ensures Progress(adj, s, Step(adj, s))
  {
    EnterKnows(adj, s);
    var t := Enter(s);
    if Top(t).next < |Neighbors(adj, Top(t).node)| {
      ScanProgresses(adj, t);
    } else {
      LeaveProgresses(adj, t);
    }
  }

  lemma RootsInUniverse(adj: Adjacency, nodes: seq<Node>, x: Node)
    requires FromRoots(adj, nodes, x)
    ensures x in Universe(adj, nodes)
  {
    var r :| r in nodes && Reach(adj, r, x);
    assert r in SetOf(nodes);
    ReachStaysClosed(adj, Universe(adj, nodes), r, x);
  }

  lemma LiveInUniverse(adj: Adjacency, nodes: seq<Node>, s: State)
    requires Shape(s) && Origin(adj, nodes, s)
    ensures Known(s) <= Universe(adj, nodes)
  {
    forall x | x in Known(s)
      ensures x in Universe(adj, nodes)
    {
      assert x in s.indexMap;
      RootsInUniverse(adj, nodes, x);
    }
  }

  lemma KnownInUniverse(adj: Adjacency, nodes: seq<Node>, s: State)
    requires Head(adj, nodes, s)
    ensures Known(s) <= Universe(adj, nodes)
  {
    if s.work != [] {
      HeadEntersLive(adj, nodes, s);
      EnterKnows(adj, s);
      LiveInUniverse(adj, nodes, Enter(s));
    } else {
      LiveInUniverse(adj, nodes, s);
    }
  }

  ghost predicate Idle(adj: Adjacency, nodes: seq<Node>, s: State) {
    Live(adj, nodes, s) && s.work == []
  }

  /** The inner loop run to its end. */
  ghost function Run(adj: Adjacency, nodes: seq<Node>, s: State): State
    requires Head(adj, nodes, s)
    decreases Universe(adj, nodes) - Known(s), |s.work|, EdgesLeft(adj, s)
  {
    if s.work == [] then s
    else
      StepKeepsHead(adj, nodes, s);
      StepProgresses(adj, s);
      KnownInUniverse(adj, nodes, Step(adj, s));
      Run(adj, nodes, Step(adj, s))
  }

  lemma RunUnfolds(adj: Adjacency, nodes: seq<Node>, s: State)
    requires Head(adj, nodes, s) && s.work != []
    ensures Numbered(Enter(s)) && Head(adj, nodes, Step(adj, s))
    ensures Run(adj, nodes, s) == Run(adj, nodes, Step(adj, s))
    ensures Progress(adj, s, Step(adj, s)) && Known(Step(adj, s)) <= Universe(adj, nodes)
  {
    StepKeepsHead(adj, nodes, s);
    StepProgresses(adj, s);
    KnownInUniverse(adj, nodes, Step(adj, s));
  }

  /** A run ends idle, knowing at least what it knew at its start. */
  lemma {:induction false} RunEnds(adj: Adjacency, nodes: seq<Node>, s: State)
    requires Head(adj, nodes, s)
    ensures Idle(adj, nodes, Run(adj, nodes, s)) && Known(s) <= Run(adj, nodes, s).indexMap.Keys
    decreases Universe(adj, nodes) - Known(s), |s.work|, EdgesLeft(adj, s)
  {
    if s.work == [] {
      assert Run(adj, nodes, s) == s;
      assert Known(s) == s.indexMap.Keys;
    } else {
      hide Head, Live, Step, Known, Universe, EdgesLeft, Numbered;
      RunUnfolds(adj, nodes, s);
      RunEnds(adj, nodes, Step(adj, s));
    }
  }

  /** The head state that opens a search from an unnumbered root. */
  function Open(s: State, r: Node): State {
    s.(work := [Frame(r, 0)])
  }

  lemma OpenIsHead(adj: Adjacency, nodes: seq<Node>, s: State, r: Node)
    requires Live(adj, nodes, s) && s.work == [] && r in nodes && r !in s.indexMap
    ensures Head(adj, nodes, Open(s, r))
  {
    assert Unpushed(Open(s, r)) == s;
    ReachRefl(adj, r);
  }

  /** One turn of the outer loop. */
  ghost function Visit(adj: Adjacency, nodes: seq<Node>, s: State, r: Node): (t: State)
    requires Idle(adj, nodes, s) && r in nodes
    ensures Idle(adj, nodes, t) && s.indexMap.Keys + {r} <= t.indexMap.Keys
  {
    if r in s.indexMap then s
    else
      OpenIsHead(adj, nodes, s, r);
      RunEnds(adj, nodes, Open(s, r));
      assert Open(s, r).work[0].node == r;
      Run(adj, nodes, Open(s, r))
  }

  /** The outer loop over the remaining start nodes. */
  ghost function VisitAll(adj: Adjacency, nodes: seq<Node>, todo: seq<Node>, s: State): (t: State)
    requires Idle(adj, nodes, s) && SetOf(todo) <= SetOf(nodes)
    ensures Idle(adj, nodes, t) && s.indexMap.Keys + SetOf(todo) <= t.indexMap.Keys
  {
    if todo == [] then s
    else
      assert todo[0] in SetOf(todo);
      assert SetOf(todo) == {todo[0]} + SetOf(todo[1..]);
      VisitAll(adj, nodes, todo[1..], Visit(adj, nodes, s, todo[0]))
  }

  lemma InitialIsLive(adj: Adjacency, nodes: seq<Node>)
    ensures Idle(adj, nodes, INITIAL)
  {
  }

  lemma IdleIsDone(adj: Adjacency, nodes: seq<Node>, s: State)
    requires Idle(adj, nodes, s)
    ensures s.onStack == {} && s.indexMap.Keys == Members(s.sccs)
  {
    forall a
      ensures a !in s.onStack
    {
      assert a in s.onStack ==> Climbs(adj, s, a);
    }
  }

  /** The component list the search returns. */
  ghost function Components(adj: Adjacency, nodes: seq<Node>): seq<seq<Node>> {
    InitialIsLive(adj, nodes);
    VisitAll(adj, nodes, nodes, INITIAL).sccs
  }

  lemma GroupsDisjoint(adj: Adjacency, sccs: seq<seq<Node>>, i: nat, j: nat, x: Node)
    requires Groups(adj, sccs) && i < j < |sccs| && x in sccs[i]
    ensures x !in sccs[j]
  {
    assert GroupAt(adj, sccs, j);
    assert x in sccs[..j][i];
    assert x !in SetOf(sccs[j]);
  }

  lemma GroupsOrdered(adj: Adjacency, sccs: seq<seq<Node>>, i: nat, x: Node, y: Node)
    requires Groups(adj, sccs) && i < |sccs| && x in sccs[i] && Edge(adj, x, y)
    ensures y in Members(sccs[..i + 1])
  {
    assert GroupAt(adj, sccs, i);
    assert x in sccs[..i + 1][i];
  }

  /** Full functional correctness: the groups are exactly the mutual-reachability classes of the nodes
      reachable from `nodes`, each node is in exactly one group, and a group's edges lead only into itself
      and into groups listed before it. */
  lemma ComponentsAreClasses(adj: Adjacency, nodes: seq<Node>)
    ensures var sccs := Components(adj, nodes);
      && (forall i :: 0 <= i < |sccs| ==> IsClass(adj, sccs[i]))
      && (forall i, j, x :: 0 <= i < j < |sccs| && x in sccs[i] ==> x !in sccs[j])
      && (forall x :: x in Members(sccs) <==> FromRoots(adj, nodes, x))
      && (forall i, x, y :: 0 <= i < |sccs| && x in sccs[i] && Edge(adj, x, y) ==> y in Members(sccs[..i + 1]))
  {
    InitialIsLive(adj, nodes);
    var r := VisitAll(adj, nodes, nodes, INITIAL);
    IdleIsDone(adj, nodes, r);
    var sccs := r.sccs;
    forall i | 0 <= i < |sccs|
      ensures IsClass(adj, sccs[i])
    {
      assert GroupAt(adj, sccs, i);
    }
    forall i, j, x | 0 <= i < j < |sccs| && x in sccs[i]
      ensures x !in sccs[j]
    {
      GroupsDisjoint(adj, sccs, i, j, x);
    }
    forall i, x, y | 0 <= i < |sccs| && x in sccs[i] && Edge(adj, x, y)
      ensures y in Members(sccs[..i + 1])
    {
      GroupsOrdered(adj, sccs, i, x, y);
    }
    forall x
      ensures x in Members(sccs) <==> FromRoots(adj, nodes, x)
    {
      if FromRoots(adj, nodes, x) {
        var q :| q in nodes && Reach(adj, q, x);
        assert q in SetOf(nodes);
        ReachStaysClosed(adj, Members(sccs), q, x);
      }
    }
  }

  // ----- the method ------------------------------------------------------------------------------

  /** Pops the stack down to and including `root`; pops everything when `root` is not on it. */
  method PopScc(stack0: seq<Node>, onStack0: set<Node>, root: Node)
    returns (scc: seq<Node>, stack: seq<Node>, onStack: set<Node>)
    ensures scc == Popped(stack0, root) && stack == Kept(stack0, root)
    ensures onStack == onStack0 - SetOf(scc)
  {
    scc, stack, onStack := [], stack0, onStack0;
    while stack != []
      invariant scc + Popped(stack, root) == Popped(stack0, root) && Kept(stack, root) == Kept(stack0, root)
      invariant onStack == onStack0 - SetOf(scc)
      decreases |stack|
    {
      var n := |stack| - 1;
      var w := stack[n];
      stack := stack[..n];
      onStack := onStack - {w};
      scc := scc + [w];
      if w == root {
        return;
      }
    }
  }

  /** `tr` lists the states the inner loop passes through from `s` until no work is left, in `r`. */
  ghost predicate IsTrace(adj: Adjacency, tr: seq<State>, s: State, r: State) {
    && tr != [] && tr[0] == s
    && if |tr| == 1 then s.work == [] && s == r
       else s.work != [] && Numbered(Enter(s)) && IsTrace(adj, tr[1..], Step(adj, s), r)
  }

  ghost predicate HasTrace(adj: Adjacency, s: State, r: State) {
    exists tr :: IsTrace(adj, tr, s, r)
  }

  lemma TraceCons(adj: Adjacency, s: State, r: State)
    requires s.work != [] && Numbered(Enter(s)) && HasTrace(adj, Step(adj, s), r)
    ensures HasTrace(adj, s, r)
  {
    var rest :| IsTrace(adj, rest, Step(adj, s), r);
    assert ([s] + rest)[1..] == rest;
    assert IsTrace(adj, [s] + rest, s, r);
  }

  lemma {:induction false} RunHasTrace(adj: Adjacency, nodes: seq<Node>, s: State)
    requires Head(adj, nodes, s)
    ensures HasTrace(adj, s, Run(adj, nodes, s))
    decreases Universe(adj, nodes) - Known(s), |s.work|, EdgesLeft(adj, s)
  {
    if s.work == [] {
      assert Run(adj, nodes, s) == s;
      assert IsTrace(adj, [s], s, s);
    } else {
      hide Head, Live, Known, Universe, EdgesLeft, HasTrace;
      RunUnfolds(adj, nodes, s);
      RunHasTrace(adj, nodes, Step(adj, s));
      TraceCons(adj, s, Run(adj, nodes, s));
    }
  }

  lemma {:induction false} TraceSteps(adj: Adjacency, tr: seq<State>, s: State, r: State, j: nat)
    requires IsTrace(adj, tr, s, r) && j < |tr|
    ensures tr[0] == s && tr[|tr| - 1] == r
    ensures tr[j].work == [] <==> j == |tr| - 1
    ensures j < |tr| - 1 ==> Numbered(Enter(tr[j])) && tr[j + 1] == Step(adj, tr[j])
  {
    if |tr| <= 1 {
    } else {
      TraceSteps(adj, tr[1..], Step(adj, s), r, if j == 0 then 0 else j - 1);
    }
  }

  /** Leaves the top node: closes its component if it is a root, then folds its lowlink into its parent's. */
  method LeaveTop(ghost s: State, stack0: seq<Node>, onStack0: set<Node>, indexMap: map<Node, int>,
                  lowlink0: map<Node, int>, sccs0: seq<seq<Node>>, work0: seq<Frame>)
    returns (stack: seq<Node>, onStack: set<Node>, lowlink: map<Node, int>, sccs: seq<seq<Node>>, work: seq<Frame>)
    requires s == State(s.index, stack0, onStack0, indexMap, lowlink0, sccs0, work0) && work0 != [] && Numbered(s)
    ensures Return(Emit(s)) == State(s.index, stack, onStack, indexMap, lowlink, sccs, work)
  {
    stack, onStack, lowlink, sccs := stack0, onStack0, lowlink0, sccs0;
    var v := work0[|work0| - 1].node;
    if lowlink[v] == indexMap[v] {
      var scc;
      scc, stack, onStack := PopScc(stack, onStack, v);
      sccs := sccs + [scc];
    }
    work := work0[..|work0| - 1];
    if work != [] {
      var parent := work[|work| - 1].node;
      lowlink := lowlink[parent := Min(lowlink[parent], lowlink[v])];
    }
  }

  /** One iteration of the inner loop. */
  method Iterate(adj: Adjacency, ghost s: State, index0: int, stack0: seq<Node>, onStack0: set<Node>,
                 indexMap0: map<Node, int>, lowlink0: map<Node, int>, sccs0: seq<seq<Node>>, work0: seq<Frame>)
    returns (index: int, stack: seq<Node>, onStack: set<Node>, indexMap: map<Node, int>,
             lowlink: map<Node, int>, sccs: seq<seq<Node>>, work: seq<Frame>)
    requires s == State(index0, stack0, onStack0, indexMap0, lowlink0, sccs0, work0)
    requires work0 != [] && Numbered(Enter(s))
    ensures Step(adj, s) == State(index, stack, onStack, indexMap, lowlink, sccs, work)
  {
    index, stack, onStack, indexMap, lowlink, sccs, work := index0, stack0, onStack0, indexMap0, lowlink0, sccs0, work0;
    var li := |work| - 1;
    var v, iv := work[li].node, work[li].next;
    if iv == 0 {
      indexMap, lowlink := indexMap[v := index], lowlink[v := index];
      index := index + 1;
      stack, onStack := stack + [v], onStack + {v};
    }
    var neighbors := Neighbors(adj, v);
    if iv < |neighbors| {
      var w := neighbors[iv];
      work := work[li := Frame(v, iv + 1)];
      if w !in indexMap {
        work := work + [Frame(w, 0)];
      } else if w in onStack {
        lowlink := lowlink[v := Min(lowlink[v], indexMap[w])];
      }
    } else {
      stack, onStack, lowlink, sccs, work := LeaveTop(Enter(s), stack, onStack, indexMap, lowlink, sccs, work);
    }
  }

  /** The whole search. */
  method FindComponents(nodes: seq<Node>, adj: Adjacency) returns (sccs: seq<seq<Node>>)
    ensures sccs == Components(adj, nodes)
  {
    hide Live, Head, Step, Enter, Numbered, Run;
    var index, stack, onStack := 0, [], {};
    var indexMap: map<Node, int>, lowlink: map<Node, int> := map[], map[];
    sccs := [];
    InitialIsLive(adj, nodes);
    ghost var s := INITIAL;
    for i := 0 to |nodes|
      invariant s == State(index, stack, onStack, indexMap, lowlink, sccs, [])
      invariant Idle(adj, nodes, s) && SetOf(nodes[i..]) <= SetOf(nodes)
      invariant VisitAll(adj, nodes, nodes[i..], s) == VisitAll(adj, nodes, nodes, INITIAL)
    {
      var start := nodes[i];
      assert nodes[i..][1..] == nodes[i + 1..];
      if start in indexMap {
        continue;
      }
      var work := [Frame(start, 0)];
      OpenIsHead(adj, nodes, s, start);
      ghost var open, j := Open(s, start), 0;
      RunHasTrace(adj, nodes, open);
      s := Visit(adj, nodes, s, start);
      ghost var tr :| IsTrace(adj, tr, open, s);
      TraceSteps(adj, tr, open, s, 0);
      while work != []
        invariant j < |tr| && tr[j] == State(index, stack, onStack, indexMap, lowlink, sccs, work)
        invariant work == [] ==> tr[j] == s
        decreases |tr| - j
      {
        TraceSteps(adj, tr, open, s, j);
        index, stack, onStack, indexMap, lowlink, sccs, work :=
          Iterate(adj, tr[j], index, stack, onStack, indexMap, lowlink, sccs, work);
        j := j + 1;
        TraceSteps(adj, tr, open, s, j);
      }
    }
  }
}
