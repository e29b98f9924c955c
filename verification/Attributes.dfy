/** Lookup of annotations by specificity: exact targets, then covering path scopes, the longest first. */
module Attributes {
  import opened Options
  import PosixPath

  datatype EntityRef =
    | File(path: string)
    | Symbol(name: string, file: Option<string>)
    | IoKey(kind: string, key: string)
    | PathScope(prefix: string)

  datatype Attribute<V> = Attribute(target: EntityRef, key: string, value: V)

  function Trimmed(s: string): (p: string)
    ensures |p| <= |s|
  {
    if s != [] && s[|s| - 1] == '/' then Trimmed(s[..|s| - 1]) else s
  }

  /** The prefix test on segment boundaries. */
  predicate PathUnder(path: string, prefix: string) {
    var p := Trimmed(prefix);
    path == p || (p <= path && |p| < |path| && path[|p|] == '/')
  }

  /** The route part of a `METHOD /path` key. */
  function RoutePath(key: string): string {
    AfterSpace(key, key)
  }

  function AfterSpace(s: string, key: string): string {
    if s == [] then key else if s[0] == ' ' then s[1..] else AfterSpace(s[1..], key)
  }

  // ----- queries -----------------------------------------------------------------------------------

  datatype Query = OfFile(path: string) | OfRoute(kind: string, key: string)

  predicate Exact(q: Query, t: EntityRef) {
    match q
    case OfFile(path) => t.File? && t.path == path
    case OfRoute(kind, key) => t.IoKey? && t.kind == kind && t.key == key
  }

  predicate Covers(q: Query, t: EntityRef) {
    match q
    case OfFile(path) => t.PathScope? && PathUnder(path, t.prefix)
    case OfRoute(kind, key) => t.PathScope? && kind == "http" && PathUnder(RoutePath(key), t.prefix)
  }

  predicate ExactAt<V>(attrs: seq<Attribute<V>>, q: Query, k: string, i: nat) {
    i < |attrs| && attrs[i].key == k && Exact(q, attrs[i].target)
  }

  predicate CoversAt<V>(attrs: seq<Attribute<V>>, q: Query, k: string, i: nat) {
    i < |attrs| && attrs[i].key == k && Covers(q, attrs[i].target)
  }

  function ScopeLength<V>(attrs: seq<Attribute<V>>, i: nat): nat
    requires i < |attrs|
  {
    if attrs[i].target.PathScope? then |Trimmed(attrs[i].target.prefix)| else 0
  }

  /** Entry `i` says something about the query. */
  predicate Applies<V>(attrs: seq<Attribute<V>>, q: Query, k: string, i: nat) {
    ExactAt(attrs, q, k, i) || CoversAt(attrs, q, k, i)
  }

  /** Entry `j` says something about the query, and more specifically than entry `i` does. */
  ghost predicate Beats<V>(attrs: seq<Attribute<V>>, q: Query, k: string, j: nat, i: nat)
    requires i < |attrs|
  {
    || (ExactAt(attrs, q, k, j) && !ExactAt(attrs, q, k, i))
    || (CoversAt(attrs, q, k, j) && !ExactAt(attrs, q, k, i) && ScopeLength(attrs, j) > ScopeLength(attrs, i))
  }

  /** The entry that answers: the first exact one if there is any, else the earliest of the longest covering
      scopes, else none. */
  ghost predicate Answer<V>(attrs: seq<Attribute<V>>, q: Query, k: string, w: Option<nat>) {
    match w
    case None => forall j: nat :: !ExactAt(attrs, q, k, j) && !CoversAt(attrs, q, k, j)
    case Some(i) =>
      || (ExactAt(attrs, q, k, i) && forall j: nat :: ExactAt(attrs, q, k, j) ==> i <= j)
      || (&& CoversAt(attrs, q, k, i)
          && (forall j: nat :: !ExactAt(attrs, q, k, j))
          && (forall j: nat :: CoversAt(attrs, q, k, j) ==>
                ScopeLength(attrs, j) <= ScopeLength(attrs, i)
                && (ScopeLength(attrs, j) == ScopeLength(attrs, i) ==> i <= j)))
  }

  function ValueOf<V>(attrs: seq<Attribute<V>>, w: Option<nat>): Option<V>
    requires w.Some? ==> w.value < |attrs|
  {
    if w.Some? then Some(attrs[w.value].value) else None
  }

  /** `r` is the value of the entry that answers. */
  ghost predicate Answers<V>(attrs: seq<Attribute<V>>, q: Query, k: string, r: Option<V>) {
    exists w: Option<nat> :: Answer(attrs, q, k, w) && (w.Some? ==> w.value < |attrs|) && r == ValueOf(attrs, w)
  }

  /** `w` answers among the first `n` entries, none of which is exact. */
  ghost predicate BestSoFar<V>(attrs: seq<Attribute<V>>, q: Query, k: string, n: nat, w: Option<nat>) {
    && n <= |attrs| && (w.Some? ==> w.value < n)
    && (forall j: nat :: j < n ==> !ExactAt(attrs, q, k, j))
    && (w.None? ==> forall j: nat :: j < n ==> !CoversAt(attrs, q, k, j))
    && (w.Some? ==>
          && CoversAt(attrs, q, k, w.value)
          && forall j: nat :: j < n && CoversAt(attrs, q, k, j) ==>
               ScopeLength(attrs, j) <= ScopeLength(attrs, w.value)
               && (ScopeLength(attrs, j) == ScopeLength(attrs, w.value) ==> w.value <= j))
  }

  lemma BestAtStart<V>(attrs: seq<Attribute<V>>, q: Query, k: string)
    ensures BestSoFar(attrs, q, k, 0, None)
  {
  }

  /** An exact entry ends the search. */
  lemma ExactAnswers<V>(attrs: seq<Attribute<V>>, q: Query, k: string, i: nat, w: Option<nat>)
    requires BestSoFar(attrs, q, k, i, w) && ExactAt(attrs, q, k, i)
    ensures Answers(attrs, q, k, Some(attrs[i].value))
  {
    assert Answer(attrs, q, k, Some(i));
  }

  /** Any other is kept if it covers and no scope so far is as long. */
  lemma BestAfter<V>(attrs: seq<Attribute<V>>, q: Query, k: string, i: nat, w: Option<nat>, better: bool)
    requires BestSoFar(attrs, q, k, i, w) && i < |attrs| && !ExactAt(attrs, q, k, i)
    requires better <==>
      CoversAt(attrs, q, k, i) && (w.None? || ScopeLength(attrs, i) > ScopeLength(attrs, w.value))
    ensures BestSoFar(attrs, q, k, i + 1, if better then Some(i) else w)
  {
  }

  lemma BestAnswers<V>(attrs: seq<Attribute<V>>, q: Query, k: string, w: Option<nat>)
    requires BestSoFar(attrs, q, k, |attrs|, w)
    ensures Answers(attrs, q, k, ValueOf(attrs, w))
  {
    assert Answer(attrs, q, k, w);
  }

  method PathAttr<V>(attrs: seq<Attribute<V>>, path: string, attrKey: string) returns (r: Option<V>)
    ensures Answers(attrs, OfFile(path), attrKey, r)
  {
    BestAtStart(attrs, OfFile(path), attrKey);
    hide Answers, BestSoFar;
    var best: Option<(nat, V)> := None;
    ghost var w: Option<nat> := None;
    var i := 0;
    while i < |attrs|
      invariant i <= |attrs| && (w.Some? ==> w.value < i)
      invariant BestSoFar(attrs, OfFile(path), attrKey, i, w)
      invariant best == if w.Some? then Some((ScopeLength(attrs, w.value), attrs[w.value].value)) else None
    {
      var a := attrs[i];
      ghost var before := w;
      if a.key == attrKey {
        if a.target.File? && a.target.path == path {
          ExactAnswers(attrs, OfFile(path), attrKey, i, w);
          return Some(a.value);
        }
        if a.target.PathScope? && PathUnder(path, a.target.prefix) {
          var len := |Trimmed(a.target.prefix)|;
          if best.None? || len > best.value.0 {
            best, w := Some((len, a.value)), Some(i);
          }
        }
      }
      BestAfter(attrs, OfFile(path), attrKey, i, before, w != before);
      i := i + 1;
    }
    r := if best.Some? then Some(best.value.1) else None;
    BestAnswers(attrs, OfFile(path), attrKey, w);
  }

  method RouteAttr<V>(attrs: seq<Attribute<V>>, kind: string, key: string, attrKey: string) returns (r: Option<V>)
    ensures Answers(attrs, OfRoute(kind, key), attrKey, r)
  {
    var path := RoutePath(key);
    BestAtStart(attrs, OfRoute(kind, key), attrKey);
    hide Answers, BestSoFar;
    var best: Option<(nat, V)> := None;
    ghost var w: Option<nat> := None;
    var i := 0;
    while i < |attrs|
      invariant i <= |attrs| && (w.Some? ==> w.value < i)
      invariant BestSoFar(attrs, OfRoute(kind, key), attrKey, i, w)
      invariant best == if w.Some? then Some((ScopeLength(attrs, w.value), attrs[w.value].value)) else None
    {
      var a := attrs[i];
      ghost var before := w;
      if a.key == attrKey {
        if a.target.IoKey? && a.target.kind == kind && a.target.key == key {
          ExactAnswers(attrs, OfRoute(kind, key), attrKey, i, w);
          return Some(a.value);
        }
        if a.target.PathScope? && kind == "http" && PathUnder(path, a.target.prefix) {
          var len := |Trimmed(a.target.prefix)|;
          if best.None? || len > best.value.0 {
            best, w := Some((len, a.value)), Some(i);
          }
        }
      }
      BestAfter(attrs, OfRoute(kind, key), attrKey, i, before, w != before);
      i := i + 1;
    }
    r := if best.Some? then Some(best.value.1) else None;
    BestAnswers(attrs, OfRoute(kind, key), attrKey, w);
  }

  // ----- what the answer is ------------------------------------------------------------------------

  /** There is one answer. */
  lemma OneAnswer<V>(attrs: seq<Attribute<V>>, q: Query, k: string, v: Option<nat>, w: Option<nat>)
    requires Answer(attrs, q, k, v) && Answer(attrs, q, k, w)
    ensures v == w
  {
  }

  lemma OneValue<V>(attrs: seq<Attribute<V>>, q: Query, k: string, r: Option<V>, t: Option<V>)
    requires Answers(attrs, q, k, r) && Answers(attrs, q, k, t)
    ensures r == t
  {
    var v: Option<nat> :| Answer(attrs, q, k, v) && (v.Some? ==> v.value < |attrs|) && r == ValueOf(attrs, v);
    var w: Option<nat> :| Answer(attrs, q, k, w) && (w.Some? ==> w.value < |attrs|) && t == ValueOf(attrs, w);
    OneAnswer(attrs, q, k, v, w);
  }

  lemma CoveringIsPrefix(path: string, prefix: string)
    requires PathUnder(path, prefix)
    ensures |Trimmed(prefix)| <= |path| && path[..|Trimmed(prefix)|] == Trimmed(prefix)
  {
  }

  /** Covering scopes of one length are one prefix, so a tie is between repetitions of a scope. */
  lemma TiesAreOneScope(q: Query, s: EntityRef, t: EntityRef)
    requires Covers(q, s) && Covers(q, t) && |Trimmed(s.prefix)| == |Trimmed(t.prefix)|
    ensures Trimmed(s.prefix) == Trimmed(t.prefix)
  {
    var path := if q.OfFile? then q.path else RoutePath(q.key);
    CoveringIsPrefix(path, s.prefix);
    CoveringIsPrefix(path, t.prefix);
  }

  /** Covering is being a prefix segment by segment. */
  lemma UnderIsSegmentPrefix(path: string, prefix: string)
    ensures PathUnder(path, prefix) <==> PosixPath.Split(Trimmed(prefix)) <= PosixPath.Split(path)
  {
    hide PosixPath.Split, Trimmed;
    var p := Trimmed(prefix);
    if PathUnder(path, prefix) {
      UnderIsPrefix(path, prefix);
    }
    if PosixPath.Split(p) <= PosixPath.Split(path) {
      PrefixIsUnder(path, p);
    }
  }

  lemma UnderIsPrefix(path: string, prefix: string)
    requires PathUnder(path, prefix)
    ensures PosixPath.Split(Trimmed(prefix)) <= PosixPath.Split(path)
  {
    hide PosixPath.Split, Trimmed;
    var p := Trimmed(prefix);
    if path != p {
      PosixPath.CutAtSlash(path, |p|);
      assert path[..|p|] == p;
      PosixPath.SplitConcat(p, path[|p| + 1..]);
    }
  }

  lemma PrefixIsUnder(path: string, p: string)
    requires PosixPath.Split(p) <= PosixPath.Split(path)
    ensures path == p || (p <= path && |p| < |path| && path[|p|] == '/')
  {
    hide PosixPath.Split;
    var head, all := PosixPath.Split(p), PosixPath.Split(path);
    var tail := all[|head|..];
    assert all == head + tail;
    PosixPath.SplitJoins(p);
    PosixPath.SplitJoins(path);
    if tail == [] {
      assert all == head;
    } else {
      JoinConcat(head, tail);
      hide PosixPath.Join;
      PrefixOfJoined(p, PosixPath.Join(tail), path);
    }
  }

  lemma PrefixOfJoined(p: string, rest: string, path: string)
    requires path == p + "/" + rest
    ensures p <= path && |p| < |path| && path[|p|] == '/'
  {
  }

  lemma {:induction false} JoinConcat(a: seq<string>, b: seq<string>)
    requires a != [] && b != []
    ensures PosixPath.Join(a + b) == PosixPath.Join(a) + "/" + PosixPath.Join(b)
  {
    assert (a + b)[1..] == a[1..] + b;
    if |a| <= 1 {
    } else {
      JoinConcat(a[1..], b);
    }
  }

  // ----- assembled stores --------------------------------------------------------------------------

  function Flatten<T>(xss: seq<seq<T>>): seq<T> {
    if xss == [] then [] else xss[0] + Flatten(xss[1..])
  }

  /** Of the answer `w` over a store: an entry from position `n` on answers exactly when one of them applies and is
      strictly more specific than every earlier entry that applies. */
  ghost predicate LaterOnlyIfMoreSpecific<V>(attrs: seq<Attribute<V>>, n: nat, q: Query, k: string, w: Option<nat>) {
    w.Some? && n <= w.value <==>
      exists j: nat :: n <= j && Applies(attrs, q, k, j)
        && forall i: nat :: i < n && i < |attrs| && Applies(attrs, q, k, i) ==> Beats(attrs, q, k, j, i)
  }

  lemma LaterAnswersIff<V>(attrs: seq<Attribute<V>>, n: nat, q: Query, k: string, w: Option<nat>)
    requires Answer(attrs, q, k, w)
    ensures LaterOnlyIfMoreSpecific(attrs, n, q, k, w)
  {
    if w.Some? {
      assert Applies(attrs, q, k, w.value);
    }
  }

  /** The store of overlay and native entries; an overlay is a list of files, a file a list of entries. On a tie an
      overlay entry answers: a native one does only by being strictly more specific. */
  method FromParts<V>(
      native: seq<Attribute<V>>, overlays: seq<seq<seq<Attribute<V>>>>) returns (attrs: seq<Attribute<V>>)
    ensures attrs == Flatten(Flatten(overlays)) + native
    ensures forall q, k, w {:trigger Answer(attrs, q, k, w)} :: Answer(attrs, q, k, w) ==>
      LaterOnlyIfMoreSpecific(attrs, |Flatten(Flatten(overlays))|, q, k, w)
  {
    attrs := Flatten(Flatten(overlays));
    attrs := attrs + native;
    forall q, k, w | Answer(attrs, q, k, w)
      ensures LaterOnlyIfMoreSpecific(attrs, |Flatten(Flatten(overlays))|, q, k, w)
    {
      LaterAnswersIff(attrs, |Flatten(Flatten(overlays))|, q, k, w);
    }
  }

  /** A store with more entries. On a tie an entry it had answers: an added one does only by being strictly more
      specific. */
  method Extended<V>(attrs: seq<Attribute<V>>, extra: seq<Attribute<V>>) returns (r: seq<Attribute<V>>)
    ensures r == attrs + extra
    ensures forall q, k, w {:trigger Answer(r, q, k, w)} :: Answer(r, q, k, w) ==>
      LaterOnlyIfMoreSpecific(r, |attrs|, q, k, w)
  {
    r := attrs;
    r := r + extra;
    forall q, k, w | Answer(r, q, k, w) ensures LaterOnlyIfMoreSpecific(r, |attrs|, q, k, w) {
      LaterAnswersIff(r, |attrs|, q, k, w);
    }
  }

  lemma SameBefore<V>(a: seq<Attribute<V>>, b: seq<Attribute<V>>, q: Query, k: string, j: nat)
    requires j < |a|
    ensures ExactAt(a + b, q, k, j) <==> ExactAt(a, q, k, j)
    ensures CoversAt(a + b, q, k, j) <==> CoversAt(a, q, k, j)
    ensures ScopeLength(a + b, j) == ScopeLength(a, j)
  {
  }

  /** Appended entries change an answer exactly when one of them is strictly more specific, or there was no
      answer and one of them applies; and then the new answer is an appended entry. */
  lemma AppendingFillsGaps<V>(
      a: seq<Attribute<V>>, b: seq<Attribute<V>>, q: Query, k: string, v: Option<nat>, w: Option<nat>)
    requires Answer(a, q, k, v) && Answer(a + b, q, k, w)
    requires v.Some? ==> v.value < |a|
    ensures v.Some? ==> w.Some?
    ensures v.Some? ==>
      (w != v <==> exists j: nat :: |a| <= j < |a| + |b| && Beats(a + b, q, k, j, v.value))
    ensures v.Some? && w != v ==> |a| <= w.value < |a| + |b| && Beats(a + b, q, k, w.value, v.value)
    ensures v.None? ==>
      (w.Some? <==> exists j: nat :: |a| <= j && Applies(a + b, q, k, j))
    ensures v.None? && w.Some? ==> |a| <= w.value < |a| + |b|
  {
    if v.Some? {
      SameBefore(a, b, q, k, v.value);
      assert ExactAt(a + b, q, k, v.value) || CoversAt(a + b, q, k, v.value);
      assert w.Some?;
      if w.value < |a| {
        AnswerOfPrefix(a, b, q, k, w.value);
        OneAnswer(a, q, k, v, w);
      } else {
        NewAnswerBeats(a, b, q, k, v.value, w.value);
      }
    } else if w.Some? {
      assert Applies(a + b, q, k, w.value);
      if w.value < |a| { SameBefore(a, b, q, k, w.value); }
    }
  }

  lemma NewAnswerBeats<V>(a: seq<Attribute<V>>, b: seq<Attribute<V>>, q: Query, k: string, i: nat, j: nat)
    requires Answer(a, q, k, Some(i)) && i < |a|
    requires Answer(a + b, q, k, Some(j)) && |a| <= j
    ensures Beats(a + b, q, k, j, i)
  {
    SameBefore(a, b, q, k, i);
  }

  lemma AnswerOfPrefix<V>(a: seq<Attribute<V>>, b: seq<Attribute<V>>, q: Query, k: string, i: nat)
    requires Answer(a + b, q, k, Some(i)) && i < |a|
    ensures Answer(a, q, k, Some(i))
  {
    forall j: nat | j < |a|
      ensures ExactAt(a + b, q, k, j) <==> ExactAt(a, q, k, j)
      ensures CoversAt(a + b, q, k, j) <==> CoversAt(a, q, k, j)
      ensures ScopeLength(a + b, j) == ScopeLength(a, j)
    {
      SameBefore(a, b, q, k, j);
    }
  }

  // ----- symbols -----------------------------------------------------------------------------------

  predicate SymbolMatches(t: EntityRef, name: string, file: Option<string>) {
    t.Symbol? && t.name == name && (t.file.None? || file.None? || t.file == file)
  }

  function SymbolAttr<V>(attrs: seq<Attribute<V>>, name: string, file: Option<string>, attrKey: string): Option<V> {
    if attrs == [] then None
    else if attrs[0].key == attrKey && SymbolMatches(attrs[0].target, name, file) then Some(attrs[0].value)
    else SymbolAttr(attrs[1..], name, file, attrKey)
  }

  /** For symbols the earlier part of a store decides whenever it says anything. */
  lemma {:induction false} EarlierSymbolWins<V>(
      a: seq<Attribute<V>>, b: seq<Attribute<V>>, name: string, file: Option<string>, k: string)
    ensures SymbolAttr(a + b, name, file, k)
         == if SymbolAttr(a, name, file, k).Some? then SymbolAttr(a, name, file, k) else SymbolAttr(b, name, file, k)
  {
    if a == [] {
      assert a + b == b;
    } else {
      assert (a + b)[1..] == a[1..] + b;
      EarlierSymbolWins(a[1..], b, name, file, k);
    }
  }
}
