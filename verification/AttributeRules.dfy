/** Attribute lookup spelled out on paths, route keys and symbol entries. */
module AttributeRules {
  import opened Attributes
  import opened Options

  // ----- scopes ------------------------------------------------------------------------------------

  lemma SlashIsTrimmed(p: string)
    ensures Trimmed(p + "/") == Trimmed(p)
  {
    assert (p + "/")[..|p|] == p;
  }

  /** A slash added to a scope changes no lookup of files or routes. */
  lemma SlashChangesNothing<V>(attrs: seq<Attribute<V>>, i: nat, p: string, q: Query, k: string, r: Option<V>)
    requires i < |attrs| && attrs[i].target == PathScope(p)
    ensures Answers(attrs[i := attrs[i].(target := PathScope(p + "/"))], q, k, r) <==> Answers(attrs, q, k, r)
  {
    var other := attrs[i := attrs[i].(target := PathScope(p + "/"))];
    SlashIsTrimmed(p);
    forall j: nat
      ensures ExactAt(other, q, k, j) <==> ExactAt(attrs, q, k, j)
      ensures CoversAt(other, q, k, j) <==> CoversAt(attrs, q, k, j)
      ensures j < |attrs| ==> ScopeLength(other, j) == ScopeLength(attrs, j)
    {
    }
    AnswersAlike(attrs, other, q, k, r);
    AnswersAlike(other, attrs, q, k, r);
  }

  lemma AnswersAlike<V>(attrs: seq<Attribute<V>>, other: seq<Attribute<V>>, q: Query, k: string, r: Option<V>)
    requires |other| == |attrs| && forall j :: 0 <= j < |attrs| ==> other[j].value == attrs[j].value
    requires forall j: nat :: ExactAt(other, q, k, j) <==> ExactAt(attrs, q, k, j)
    requires forall j: nat :: CoversAt(other, q, k, j) <==> CoversAt(attrs, q, k, j)
    requires forall j: nat :: j < |attrs| ==> ScopeLength(other, j) == ScopeLength(attrs, j)
    ensures Answers(attrs, q, k, r) ==> Answers(other, q, k, r)
  {
    assert forall j: nat :: CoversAt(attrs, q, k, j) ==> j < |attrs|;
    hide ExactAt, CoversAt, ScopeLength;
    if w: Option<nat> :| Answer(attrs, q, k, w) && (w.Some? ==> w.value < |attrs|) && r == ValueOf(attrs, w) {
      assert Answer(other, q, k, w);
    }
  }

  lemma NotTrimmed(p: string)
    requires p == "" || p[|p| - 1] != '/'
    ensures Trimmed(p) == p
  {
  }

  /** A scope that does not end in a slash covers itself and what lies below it, at a slash, and nothing else. */
  lemma ScopeCoversBelow(path: string, p: string)
    requires p == "" || p[|p| - 1] != '/'
    ensures PathUnder(path, p) <==> path == p || exists rest: string :: path == p + "/" + rest
  {
    NotTrimmed(p);
    if p <= path && |p| < |path| && path[|p|] == '/' {
      assert path == p + "/" + path[|p| + 1..];
    }
  }

  lemma {:induction false} RouteAfterSpace(m: string, path: string, key: string)
    requires ' ' !in m
    ensures AfterSpace(m + " " + path, key) == path && AfterSpace(m, key) == key
  {
    var s := m + " " + path;
    if m == [] {
      assert s[1..] == path;
    } else {
      assert m == [m[0]] + m[1..] && s[1..] == m[1..] + " " + path;
      RouteAfterSpace(m[1..], path, key);
    }
  }

  /** A route is covered by what covers the path after its method; a key without a method is its own path; and scopes
      cover routes of the kind http only. */
  lemma RoutesAreCoveredByPath(kind: string, m: string, path: string, p: string)
    requires ' ' !in m
    ensures Covers(OfRoute("http", m + " " + path), PathScope(p)) <==> PathUnder(path, p)
    ensures Covers(OfRoute("http", m), PathScope(p)) <==> PathUnder(m, p)
    ensures Covers(OfRoute(kind, m + " " + path), PathScope(p)) ==> kind == "http"
  {
    RouteAfterSpace(m, path, m + " " + path);
    RouteAfterSpace(m, path, m);
  }

  /** For instance. */
  lemma AdminScope<V>(m: string, rest: string, k: string, v: V)
    requires ' ' !in m
    ensures Answers([Attribute(PathScope("/admin"), k, v)], OfRoute("http", m + " /admin/" + rest), k, Some(v))
    ensures Answers([Attribute(PathScope("/admin"), k, v)], OfFile("/administrators"), k, None)
  {
    var attrs := [Attribute(PathScope("/admin"), k, v)];
    var path := "/admin/" + rest;
    ScopeCoversBelow(path, "/admin");
    ScopeCoversBelow("/administrators", "/admin");
    assert path == "/admin" + "/" + rest;
    assert m + " /admin/" + rest == m + " " + path;
    RoutesAreCoveredByPath("http", m, path, "/admin");
    assert Answer(attrs, OfRoute("http", m + " " + path), k, Some(0));
    NotBelow("/administrators", "/admin");
    assert Answer(attrs, OfFile("/administrators"), k, None);
  }

  lemma NotBelow(path: string, p: string)
    requires |path| > |p| && path[|p|] != '/' && (p == "" || p[|p| - 1] != '/')
    ensures !PathUnder(path, p)
  {
    NotTrimmed(p);
  }

  // ----- which entry answers -----------------------------------------------------------------------

  /** Entry `i` is for the key and a scope over the path, and its scope has `n` characters, slashes at its end apart. */
  ghost predicate ScopeOver<V>(attrs: seq<Attribute<V>>, path: string, k: string, i: nat, n: nat) {
    && i < |attrs| && attrs[i].key == k && attrs[i].target.PathScope?
    && PathUnder(path, attrs[i].target.prefix) && n == |Trimmed(attrs[i].target.prefix)|
  }

  /** A file or route is named by its own entry. */
  ghost predicate Named<V>(attrs: seq<Attribute<V>>, q: Query, k: string, i: nat) {
    && i < |attrs| && attrs[i].key == k
    && attrs[i].target == match q case OfFile(path) => File(path) case OfRoute(kind, key) => IoKey(kind, key)
  }

  /** The path by which scopes see a file, or a route of the kind http. */
  ghost predicate SeenAs(q: Query, path: string) {
    q == OfFile(path) || exists m: string :: ' ' !in m && q == OfRoute("http", m + " " + path)
  }

  lemma CoveredAsSeen<V>(attrs: seq<Attribute<V>>, q: Query, path: string, k: string, i: nat)
    requires SeenAs(q, path)
    ensures CoversAt(attrs, q, k, i) <==> i < |attrs| && ScopeOver(attrs, path, k, i, ScopeLength(attrs, i))
    ensures ExactAt(attrs, q, k, i) <==> Named(attrs, q, k, i)
  {
    if q.OfRoute? && i < |attrs| && attrs[i].target.PathScope? {
      var m :| ' ' !in m && q == OfRoute("http", m + " " + path);
      RoutesAreCoveredByPath("http", m, path, attrs[i].target.prefix);
    }
  }

  /** The first entry for the key that names the file or route answers. */
  lemma FirstNamedAnswers<V>(attrs: seq<Attribute<V>>, q: Query, k: string, i: nat)
    requires Named(attrs, q, k, i) && forall j: nat :: Named(attrs, q, k, j) ==> i <= j
    ensures Answers(attrs, q, k, Some(attrs[i].value))
  {
    forall j: nat ensures ExactAt(attrs, q, k, j) <==> Named(attrs, q, k, j) {
    }
    assert Answer(attrs, q, k, Some(i));
  }

  /** If none does, the earliest of those with the longest scope over it answers. */
  lemma LongestScopeAnswers<V>(attrs: seq<Attribute<V>>, q: Query, path: string, k: string, i: nat, n: nat)
    requires SeenAs(q, path) && (forall j: nat :: !Named(attrs, q, k, j)) && ScopeOver(attrs, path, k, i, n)
    requires forall j: nat, m: nat :: ScopeOver(attrs, path, k, j, m) ==> m < n || (m == n && i <= j)
    ensures Answers(attrs, q, k, Some(attrs[i].value))
  {
    forall j: nat
      ensures CoversAt(attrs, q, k, j) <==> j < |attrs| && ScopeOver(attrs, path, k, j, ScopeLength(attrs, j))
      ensures !ExactAt(attrs, q, k, j)
    {
      CoveredAsSeen(attrs, q, path, k, j);
    }
    hide CoversAt, ExactAt, Named;
    assert Answer(attrs, q, k, Some(i));
  }

  /** And if there is no such scope either, there is no answer. */
  lemma NothingAnswers<V>(attrs: seq<Attribute<V>>, q: Query, path: string, k: string)
    requires SeenAs(q, path) && forall j: nat :: !Named(attrs, q, k, j)
    requires forall j: nat, m: nat :: !ScopeOver(attrs, path, k, j, m)
    ensures Answers(attrs, q, k, None)
  {
    forall j: nat ensures !CoversAt(attrs, q, k, j) && !ExactAt(attrs, q, k, j) {
      CoveredAsSeen(attrs, q, path, k, j);
    }
    hide CoversAt, ExactAt, Named, ScopeOver;
    assert Answer(attrs, q, k, None);
  }

  // ----- symbols -----------------------------------------------------------------------------------

  /** The first entry for the key that names the symbol answers, if it names no file, or none is asked for, or the one
      it names is asked for. */
  lemma {:induction false} FirstSymbolAnswers<V>(
      attrs: seq<Attribute<V>>, name: string, file: Option<string>, k: string, i: nat)
    requires i <= |attrs|
    requires i < |attrs| ==> attrs[i].key == k && attrs[i].target.Symbol? && attrs[i].target.name == name
    requires i < |attrs| ==>
      attrs[i].target.file == None || file == None || attrs[i].target.file == file
    requires forall j :: 0 <= j < i ==>
      || attrs[j].key != k || !attrs[j].target.Symbol? || attrs[j].target.name != name
      || (attrs[j].target.file != None && file != None && attrs[j].target.file != file)
    ensures SymbolAttr(attrs, name, file, k) == if i < |attrs| then Some(attrs[i].value) else None
  {
    if attrs == [] || i == 0 {
    } else {
      FirstSymbolAnswers(attrs[1..], name, file, k, i - 1);
    }
  }
}
