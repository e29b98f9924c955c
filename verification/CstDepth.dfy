/** The iterative depth gate over a syntax tree: a walk that only has a cursor's three moves. */
module CstDepth {
  datatype Tree = Tree(children: seq<Tree>)

  const MAX_CST_DEPTH: nat := 4096

  // ----- trees and paths -------------------------------------------------------------------------

  function MaxHeight(ts: seq<Tree>): (h: int)
    ensures -1 <= h
    decreases ts, 0
  {
    if ts == [] then -1
    else
      var h, rest := Height(ts[0]), MaxHeight(ts[1..]);
      if h >= rest then h else rest
  }

  /** Edges on the longest way down. */
  function Height(t: Tree): nat
    decreases t
  {
    1 + MaxHeight(t.children)
  }

  lemma {:induction false} MaxHeightBounds(ts: seq<Tree>, h: int)
    requires -1 <= h
    ensures MaxHeight(ts) <= h <==> forall i :: 0 <= i < |ts| ==> Height(ts[i]) <= h
  {
    if ts == [] {
    } else {
      MaxHeightBounds(ts[1..], h);
      assert forall i :: 0 <= i < |ts| ==> ts[i] == if i == 0 then ts[0] else ts[1..][i - 1];
      assert forall i :: 0 <= i < |ts[1..]| ==> ts[1..][i] == ts[i + 1];
    }
  }

  lemma {:induction false} HighestChild(ts: seq<Tree>) returns (i: nat)
    requires ts != []
    ensures i < |ts| && Height(ts[i]) == MaxHeight(ts)
  {
    if Height(ts[0]) >= MaxHeight(ts[1..]) {
      i := 0;
    } else {
      i := HighestChild(ts[1..]);
      i := i + 1;
    }
  }

  function Sizes(ts: seq<Tree>): nat
    decreases ts, 0
  {
    if ts == [] then 0 else Size(ts[0]) + Sizes(ts[1..])
  }

  /** Number of nodes. */
  function Size(t: Tree): nat
    decreases t
  {
    1 + Sizes(t.children)
  }

  /** `p` leads from the root of `t` to a node, one child index a step. */
  predicate ValidPath(t: Tree, p: seq<nat>) {
    p == [] || (p[0] < |t.children| && ValidPath(t.children[p[0]], p[1..]))
  }

  function At(t: Tree, p: seq<nat>): Tree
    requires ValidPath(t, p)
  {
    if p == [] then t else At(t.children[p[0]], p[1..])
  }

  lemma {:induction false} Extend(t: Tree, p: seq<nat>, i: nat)
    requires ValidPath(t, p) && i < |At(t, p).children|
    ensures ValidPath(t, p + [i]) && At(t, p + [i]) == At(t, p).children[i]
  {
    if p == [] {
      assert [i][1..] == [];
    } else {
      Extend(t.children[p[0]], p[1..], i);
      assert (p + [i])[1..] == p[1..] + [i];
    }
  }

  lemma {:induction false} Shorten(t: Tree, p: seq<nat>)
    requires ValidPath(t, p) && p != []
    ensures var n := |p| - 1;
      ValidPath(t, p[..n]) && p[n] < |At(t, p[..n]).children| && At(t, p) == At(t, p[..n]).children[p[n]]
  {
    if |p| <= 1 {
    } else {
      Shorten(t.children[p[0]], p[1..]);
      assert p[..|p| - 1][1..] == p[1..][..|p| - 2];
    }
  }

  /** No node lies deeper than the tree is high. */
  lemma {:induction false} PathWithinHeight(t: Tree, p: seq<nat>)
    requires ValidPath(t, p)
    ensures |p| + Height(At(t, p)) <= Height(t)
  {
    if p == [] {
    } else {
      PathWithinHeight(t.children[p[0]], p[1..]);
      MaxHeightBounds(t.children, MaxHeight(t.children));
    }
  }

  /** Some node does lie that deep. */
  lemma {:induction false} DeepestPath(t: Tree) returns (p: seq<nat>)
    ensures ValidPath(t, p) && |p| == Height(t)
    decreases t
  {
    if t.children == [] {
      p := [];
    } else {
      var i := HighestChild(t.children);
      var rest := DeepestPath(t.children[i]);
      p := [i] + rest;
      assert p[1..] == rest;
    }
  }

  /** A tree is too high exactly when some node lies more than 4096 edges down. */
  lemma TooHighIffTooDeep(t: Tree)
    ensures Height(t) > MAX_CST_DEPTH <==> exists p :: ValidPath(t, p) && |p| > 4096
  {
    var deepest := DeepestPath(t);
    forall p | ValidPath(t, p) ensures |p| <= Height(t) {
      PathWithinHeight(t, p);
    }
  }

  // ----- the cursor ------------------------------------------------------------------------------

  /** A cursor over a tree. A move that answers false leaves it where it was, and it cannot leave `root`. */
  class Cursor {
    const root: Tree
    var path: seq<nat>

    ghost predicate Valid()
      reads this
    {
      ValidPath(root, path)
    }

    constructor (t: Tree)
      ensures Valid() && root == t && path == []
    {
      root, path := t, [];
    }

    method GotoFirstChild() returns (moved: bool)
      requires Valid()
      modifies this
      ensures Valid()
      ensures moved <==> At(root, old(path)).children != []
      ensures path == if moved then old(path) + [0] else old(path)
    {
      moved := At(root, path).children != [];
      if moved {
        Extend(root, path, 0);
        path := path + [0];
      }
    }

    method GotoNextSibling() returns (moved: bool)
      requires Valid()
      modifies this
      ensures Valid()
      ensures moved <==> HasNextSibling(root, old(path))
      ensures path == if moved then NextSibling(root, old(path)) else old(path)
    {
      moved := false;
      if path != [] {
        var n := |path| - 1;
        Shorten(root, path);
        if path[n] + 1 < |At(root, path[..n]).children| {
          Extend(root, path[..n], path[n] + 1);
          path := path[..n] + [path[n] + 1];
          moved := true;
        }
      }
    }

    method GotoParent() returns (moved: bool)
      requires Valid()
      modifies this
      ensures Valid()
      ensures moved <==> old(path) != []
      ensures path == if moved then old(path)[..|old(path)| - 1] else []
    {
      moved := path != [];
      if moved {
        Shorten(root, path);
        path := path[..|path| - 1];
      }
    }
  }

  predicate HasNextSibling(t: Tree, p: seq<nat>)
    requires ValidPath(t, p)
  {
    p != [] && (Shorten(t, p); p[|p| - 1] + 1 < |At(t, p[..|p| - 1]).children|)
  }

  function NextSibling(t: Tree, p: seq<nat>): seq<nat>
    requires ValidPath(t, p) && HasNextSibling(t, p)
  {
    p[..|p| - 1] + [p[|p| - 1] + 1]
  }

  // ----- how far a walk has come -----------------------------------------------------------------

  /** Nodes that come after the whole subtree at `p` in a left-to-right, top-down walk. */
  function After(t: Tree, p: seq<nat>): nat
    requires ValidPath(t, p)
  {
    if p == [] then 0 else Sizes(t.children[p[0] + 1..]) + After(t.children[p[0]], p[1..])
  }

  /** Everything up to and including the node at `p`, but not below it, lies within `cap`. */
  ghost predicate EnteredWithin(t: Tree, p: seq<nat>, cap: int)
    requires ValidPath(t, p)
  {
    if p == [] then 0 <= cap
    else (forall i :: 0 <= i < p[0] ==> Height(t.children[i]) < cap) && EnteredWithin(t.children[p[0]], p[1..], cap - 1)
  }

  /** Everything up to the end of the subtree at `p` lies within `cap`. */
  ghost predicate FinishedWithin(t: Tree, p: seq<nat>, cap: int)
    requires ValidPath(t, p)
  {
    if p == [] then Height(t) <= cap
    else
      (forall i :: 0 <= i < p[0] ==> Height(t.children[i]) < cap) && FinishedWithin(t.children[p[0]], p[1..], cap - 1)
  }

  lemma {:induction false} DescendStep(t: Tree, p: seq<nat>, cap: int)
    requires ValidPath(t, p) && At(t, p).children != []
    ensures ValidPath(t, p + [0])
    ensures After(t, p + [0]) + Size(At(t, p + [0])) == After(t, p) + Size(At(t, p)) - 1
    ensures EnteredWithin(t, p, cap) && |p| < cap ==> EnteredWithin(t, p + [0], cap)
  {
    Extend(t, p, 0);
    if p == [] {
      assert [0][1..] == [];
    } else {
      assert (p + [0])[1..] == p[1..] + [0];
      DescendStep(t.children[p[0]], p[1..], cap - 1);
    }
  }

  lemma {:induction false} LeafIsFinished(t: Tree, p: seq<nat>, cap: int)
    requires ValidPath(t, p) && At(t, p).children == [] && EnteredWithin(t, p, cap)
    ensures FinishedWithin(t, p, cap)
  {
    if p == [] {
    } else {
      LeafIsFinished(t.children[p[0]], p[1..], cap - 1);
    }
  }

  /** Below the first step, siblings and parents are those of the child's own path. */
  lemma DownOne(t: Tree, p: seq<nat>)
    requires ValidPath(t, p) && |p| >= 2
    ensures var c, r := t.children[p[0]], p[1..];
      && ValidPath(c, r) && (HasNextSibling(c, r) <==> HasNextSibling(t, p))
      && p[..|p| - 1][0] == p[0] && p[..|p| - 1][1..] == r[..|r| - 1]
      && (HasNextSibling(t, p) ==> NextSibling(t, p)[0] == p[0] && NextSibling(t, p)[1..] == NextSibling(c, r))
  {
    Shorten(t, p);
    Shorten(t.children[p[0]], p[1..]);
    assert p[..|p| - 1][1..] == p[1..][..|p| - 2];
  }

  lemma SiblingAtRoot(t: Tree, k: nat)
    requires k + 1 < |t.children|
    ensures Sizes(t.children[k + 1..]) == Size(t.children[k + 1]) + Sizes(t.children[k + 2..])
  {
    assert t.children[k + 1..][1..] == t.children[k + 2..];
  }

  lemma {:induction false} SiblingStep(t: Tree, p: seq<nat>, cap: int)
    requires ValidPath(t, p) && HasNextSibling(t, p)
    ensures var q := NextSibling(t, p);
      && ValidPath(t, q) && After(t, q) + Size(At(t, q)) == After(t, p)
      && (FinishedWithin(t, p, cap) && |p| <= cap ==> EnteredWithin(t, q, cap))
  {
    var n, q := |p| - 1, NextSibling(t, p);
    if n == 0 {
      assert p[..|p| - 1] == [] && p[1..] == [];
      assert q == [p[0] + 1] && q[1..] == [];
      SiblingAtRoot(t, p[0]);
      assert FinishedWithin(t, p, cap) ==> FinishedWithin(t.children[p[0]], [], cap - 1);
      assert 1 <= cap ==> EnteredWithin(t.children[q[0]], [], cap - 1);
    } else {
      DownOne(t, p);
      SiblingStep(t.children[p[0]], p[1..], cap - 1);
    }
  }

  lemma {:induction false} ParentStep(t: Tree, p: seq<nat>, cap: int)
    requires ValidPath(t, p) && p != [] && !HasNextSibling(t, p)
    ensures var q := p[..|p| - 1];
      && ValidPath(t, q) && After(t, q) == After(t, p)
      && (FinishedWithin(t, p, cap) ==> FinishedWithin(t, q, cap))
  {
    var n := |p| - 1;
    if n == 0 {
      assert p[..|p| - 1] == [] && p[1..] == [];
      assert t.children[p[0] + 1..] == [];
      if FinishedWithin(t, p, cap) {
        assert FinishedWithin(t.children[p[0]], [], cap - 1);
        MaxHeightBounds(t.children, cap - 1);
      }
    } else {
      DownOne(t, p);
      ParentStep(t.children[p[0]], p[1..], cap - 1);
    }
  }

  /** Whether the tree under a fresh cursor is higher than the cap. On false the cursor is back at its start. */
  method ExceedsMaxDepth(cursor: Cursor) returns (exceeds: bool)
    requires cursor.Valid() && cursor.path == []
    modifies cursor
    ensures cursor.Valid()
    ensures exceeds <==> Height(cursor.root) > MAX_CST_DEPTH
    ensures !exceeds ==> cursor.path == []
  {
    ghost var t := cursor.root;
    var depth: nat := 0;
    while true
      invariant cursor.Valid() && depth == |cursor.path| <= MAX_CST_DEPTH
      invariant EnteredWithin(t, cursor.path, MAX_CST_DEPTH)
      decreases After(t, cursor.path) + Size(At(t, cursor.path))
    {
      ghost var entry := After(t, cursor.path) + Size(At(t, cursor.path));
      var moved := true;
      while moved
        invariant cursor.Valid() && depth == |cursor.path| <= MAX_CST_DEPTH
        invariant EnteredWithin(t, cursor.path, MAX_CST_DEPTH)
        invariant After(t, cursor.path) + Size(At(t, cursor.path)) <= entry
        invariant !moved ==> At(t, cursor.path).children == []
        decreases After(t, cursor.path) + Size(At(t, cursor.path)), moved
      {
        ghost var p := cursor.path;
        moved := cursor.GotoFirstChild();
        if moved {
          DescendStep(t, p, MAX_CST_DEPTH);
          depth := depth + 1;
          if depth > MAX_CST_DEPTH {
            PathWithinHeight(t, cursor.path);
            return true;
          }
        }
      }
      LeafIsFinished(t, cursor.path, MAX_CST_DEPTH);
      while true
        invariant cursor.Valid() && depth == |cursor.path| <= MAX_CST_DEPTH
        invariant FinishedWithin(t, cursor.path, MAX_CST_DEPTH) && After(t, cursor.path) < entry
        decreases |cursor.path|
      {
        ghost var p := cursor.path;
        moved := cursor.GotoNextSibling();
        if moved {
          SiblingStep(t, p, MAX_CST_DEPTH);
          break;
        }
        moved := cursor.GotoParent();
        if !moved {
          return false;
        }
        ParentStep(t, p, MAX_CST_DEPTH);
        depth := depth - 1;
      }
    }
  }
}
