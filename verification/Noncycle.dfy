/** Which dependency edges are erased at compile time, and the resulting definition of a cycle. */
module Noncycle {
  import opened Circular
  import opened Digraph

  datatype SymbolKind = Function | Class | Const | Type | Interface

  /** The fields of a source symbol that the decision reads. */
  datatype SourceSymbol = SourceSymbol(file: string, name: string, kind: SymbolKind, exported: bool)

  /** One binding that contributes an edge: the imported name, and whether the import erases it. */
  datatype Binding = Binding(name: string, erased: bool)

  type Pair = (Node, Node)

  const ERASING_EXTENSIONS := [".ts", ".tsx", ".js", ".jsx", ".mts", ".cts"]

  predicate EndsWith(s: string, suffix: string) {
    |suffix| <= |s| && s[|s| - |suffix|..] == suffix
  }

  predicate TargetLanguageErasesTypes(path: string) {
    exists i :: 0 <= i < |ERASING_EXTENSIONS| && EndsWith(path, ERASING_EXTENSIONS[i])
  }

  predicate IsType(s: SourceSymbol) {
    s.kind == Type || s.kind == Interface
  }

  predicate Declares(s: SourceSymbol, file: string, name: string) {
    s.file == file && s.name == name
  }

  /** `name` is declared in `file`, only ever as a type or interface, and exported at least once. */
  ghost predicate DeclaredAsType(symbols: seq<SourceSymbol>, file: string, name: string) {
    && (forall s :: s in symbols && Declares(s, file, name) ==> IsType(s))
    && (exists s :: s in symbols && Declares(s, file, name) && s.exported)
  }

  /** A binding of an edge into `to` leaves no runtime import behind. */
  ghost predicate Erasable(symbols: seq<SourceSymbol>, gate: bool, to: Node, b: Binding) {
    b.erased || (gate && TargetLanguageErasesTypes(to) && DeclaredAsType(symbols, to, b.name))
  }

  ghost predicate AllErasable(symbols: seq<SourceSymbol>, gate: bool, to: Node, bindings: seq<Binding>) {
    forall b :: b in bindings ==> Erasable(symbols, gate, to, b)
  }

  /** The exclusion set: the recorded pairs all of whose bindings are erasable. */
  ghost function Excluded(edges: map<Pair, seq<Binding>>, symbols: seq<SourceSymbol>, gate: bool): EdgeSet {
    set p | p in edges && AllErasable(symbols, gate, p.1, edges[p])
  }

  /** One `record` call. */
  datatype Call = Call(from: Node, to: Node, binding: Binding)

  function Recorded(edges: map<Pair, seq<Binding>>, c: Call): map<Pair, seq<Binding>> {
    var p := (c.from, c.to);
    edges[p := (if p in edges then edges[p] else []) + [c.binding]]
  }

  function RecordedAll(calls: seq<Call>): map<Pair, seq<Binding>> {
    if calls == [] then map[] else Recorded(RecordedAll(calls[..|calls| - 1]), calls[|calls| - 1])
  }

  predicate ErasedBy(
      declarations: map<(string, string), (bool, bool)>, exportArmAvailable: bool, to: Node, b: Binding) {
    b.erased
    || (exportArmAvailable && (to, b.name) in declarations && declarations[(to, b.name)] == (true, true))
  }

  /** What the declaration table says of the symbols read so far. */
  ghost predicate Summarizes(declarations: map<(string, string), (bool, bool)>, symbols: seq<SourceSymbol>) {
    forall file, name {:trigger (file, name) in declarations} ::
      && ((file, name) in declarations <==> exists s :: s in symbols && Declares(s, file, name))
      && ((file, name) in declarations ==>
            && (declarations[(file, name)].0 <==> forall s :: s in symbols && Declares(s, file, name) ==> IsType(s))
            && (declarations[(file, name)].1 <==> exists s :: s in symbols && Declares(s, file, name) && s.exported))
  }

  /** Folds one declaration of a name into what is known of that name. */
  function Folded(s: SourceSymbol, known: map<(string, string), (bool, bool)>): (bool, bool) {
    var key := (s.file, s.name);
    if key in known then (known[key].0 && IsType(s), known[key].1 || s.exported) else (IsType(s), s.exported)
  }

  lemma FoldSummarizes(known: map<(string, string), (bool, bool)>, symbols: seq<SourceSymbol>, s: SourceSymbol)
    requires Summarizes(known, symbols)
    ensures Summarizes(known[(s.file, s.name) := Folded(s, known)], symbols + [s])
  {
    var all, next := symbols + [s], known[(s.file, s.name) := Folded(s, known)];
    assert forall x :: x in all <==> x in symbols || x == s;
    forall file, name
      ensures (file, name) in next <==> exists x :: x in all && Declares(x, file, name)
      ensures (file, name) in next ==>
        && (next[(file, name)].0 <==> forall x :: x in all && Declares(x, file, name) ==> IsType(x))
        && (next[(file, name)].1 <==> exists x :: x in all && Declares(x, file, name) && x.exported)
    {
      assert s in all;
      assert (file, name) in known <==> exists x :: x in symbols && Declares(x, file, name);
    }
  }

  method TabulateDeclarations(symbols: seq<SourceSymbol>) returns (declarations: map<(string, string), (bool, bool)>)
    ensures Summarizes(declarations, symbols)
  {
    declarations := map[];
    for i := 0 to |symbols|
      invariant Summarizes(declarations, symbols[..i])
    {
      var s := symbols[i];
      assert symbols[..i + 1] == symbols[..i] + [s];
      FoldSummarizes(declarations, symbols[..i], s);
      declarations := declarations[(s.file, s.name) := Folded(s, declarations)];
    }
    assert symbols[..|symbols|] == symbols;
  }

  lemma TableDecides(
      declarations: map<(string, string), (bool, bool)>, symbols: seq<SourceSymbol>, gate: bool, to: Node, b: Binding)
    requires gate ==> Summarizes(declarations, symbols)
    ensures ErasedBy(declarations, gate && TargetLanguageErasesTypes(to), to, b) <==> Erasable(symbols, gate, to, b)
  {
    if gate {
      assert (to, b.name) in declarations <==> exists s :: s in symbols && Declares(s, to, b.name);
    }
  }

  lemma TableDecidesPair(
      declarations: map<(string, string), (bool, bool)>, symbols: seq<SourceSymbol>, gate: bool, to: Node,
      bindings: seq<Binding>)
    requires gate ==> Summarizes(declarations, symbols)
    ensures (forall b :: b in bindings ==> ErasedBy(declarations, gate && TargetLanguageErasesTypes(to), to, b))
       <==> AllErasable(symbols, gate, to, bindings)
  {
    forall b
      ensures ErasedBy(declarations, gate && TargetLanguageErasesTypes(to), to, b) <==> Erasable(symbols, gate, to, b)
    {
      TableDecides(declarations, symbols, gate, to, b);
    }
  }

  class NoncycleCandidates {
    var edges: map<Pair, seq<Binding>>

    constructor ()
      ensures edges == RecordedAll([])
    {
      edges := map[];
    }

    method Record(from: Node, to: Node, importedName: string, erased: bool)
      modifies this
      ensures edges == Recorded(old(edges), Call(from, to, Binding(importedName, erased)))
    {
      var entry := if (from, to) in edges then edges[(from, to)] else [];
      edges := edges[(from, to) := entry + [Binding(importedName, erased)]];
    }

    method Refine(symbols: seq<SourceSymbol>, exportSideGate: bool) returns (excluded: EdgeSet)
      ensures excluded == Excluded(edges, symbols, exportSideGate)
    {
      var declarations: map<(string, string), (bool, bool)> := map[];
      if exportSideGate {
        declarations := TabulateDeclarations(symbols);
      }
      excluded := {};
      var rest := edges.Keys;
      while rest != {}
        invariant rest <= edges.Keys && excluded <= edges.Keys - rest
        invariant forall p :: p in edges && p !in rest ==>
          (p in excluded <==> AllErasable(symbols, exportSideGate, p.1, edges[p]))
        decreases |rest|
      {
        var p :| p in rest;
        var exportArmAvailable := exportSideGate && TargetLanguageErasesTypes(p.1);
        var allErasable := forall b :: b in edges[p] ==> ErasedBy(declarations, exportArmAvailable, p.1, b);
        TableDecidesPair(declarations, symbols, exportSideGate, p.1, edges[p]);
        if allErasable {
          excluded := excluded + {p};
        }
        rest := rest - {p};
      }
    }
  }

  lemma {:induction false} RecordedBindings(calls: seq<Call>, p: Pair, b: Binding)
    ensures var edges := RecordedAll(calls);
      && (p in edges <==> exists c :: c in calls && (c.from, c.to) == p)
      && (p in edges && b in edges[p] <==> Call(p.0, p.1, b) in calls)
  {
    if calls == [] {
    } else {
      var n := |calls| - 1;
      RecordedBindings(calls[..n], p, b);
      assert calls == calls[..n] + [calls[n]];
    }
  }

  /** The pair was recorded, and every call that recorded it is erasable. */
  ghost predicate Erased(calls: seq<Call>, symbols: seq<SourceSymbol>, gate: bool, p: Pair) {
    && (exists c :: c in calls && (c.from, c.to) == p)
    && (forall c :: c in calls && (c.from, c.to) == p ==> Erasable(symbols, gate, c.to, c.binding))
  }

  /** `refine` after any sequence of `record` calls excludes exactly the erased pairs. */
  lemma RefineExcludesErased(calls: seq<Call>, symbols: seq<SourceSymbol>, gate: bool, p: Pair)
    ensures p in Excluded(RecordedAll(calls), symbols, gate) <==> Erased(calls, symbols, gate, p)
  {
    var edges := RecordedAll(calls);
    forall b: Binding
      ensures p in edges <==> exists c :: c in calls && (c.from, c.to) == p
      ensures p in edges && b in edges[p] <==> Call(p.0, p.1, b) in calls
    {
      RecordedBindings(calls, p, b);
    }
    if p in edges && AllErasable(symbols, gate, p.1, edges[p]) {
      forall c | c in calls && (c.from, c.to) == p
        ensures Erasable(symbols, gate, c.to, c.binding)
      {
        assert c == Call(p.0, p.1, c.binding);
      }
    }
    if Erased(calls, symbols, gate, p) {
      forall b | b in edges[p]
        ensures Erasable(symbols, gate, p.1, b)
      {
        assert Call(p.0, p.1, b) in calls;
      }
    }
  }

  // ----- the decision spelled out ----------------------------------------------------------------

  lemma EndingIsSuffix(path: string, suffix: string)
    ensures EndsWith(path, suffix) <==> exists stem: string :: path == stem + suffix
  {
    if EndsWith(path, suffix) {
      assert path == path[..|path| - |suffix|] + suffix;
    }
  }

  lemma ErasingEndings(path: string)
    ensures TargetLanguageErasesTypes(path) <==>
      exists stem: string, ending: string ::
        path == stem + ending && ending in [".ts", ".tsx", ".js", ".jsx", ".mts", ".cts"]
  {
    hide EndsWith;
    if TargetLanguageErasesTypes(path) {
      var i :| 0 <= i < |ERASING_EXTENSIONS| && EndsWith(path, ERASING_EXTENSIONS[i]);
      EndingIsSuffix(path, ERASING_EXTENSIONS[i]);
      var stem: string :| path == stem + ERASING_EXTENSIONS[i];
    }
    if stem: string, ending: string :|
        path == stem + ending && ending in [".ts", ".tsx", ".js", ".jsx", ".mts", ".cts"] {
      var i :| 0 <= i < |ERASING_EXTENSIONS| && ERASING_EXTENSIONS[i] == ending;
      EndingIsSuffix(path, ending);
    }
  }

  /** When a binding leaves no import behind: its import says so, or, with the gate on and a target in an erasing
      language, the target declares its name as types and interfaces only, and exports one of them. */
  lemma ErasableIff(symbols: seq<SourceSymbol>, gate: bool, to: Node, b: Binding)
    ensures Erasable(symbols, gate, to, b) <==>
      || b.erased
      || (&& gate
          && (exists stem: string, ending: string ::
                to == stem + ending && ending in [".ts", ".tsx", ".js", ".jsx", ".mts", ".cts"])
          && (forall s :: s in symbols && s.file == to && s.name == b.name ==> s.kind == Type || s.kind == Interface)
          && (exists s :: s in symbols && s.file == to && s.name == b.name && s.exported))
  {
    ErasingEndings(to);
    hide TargetLanguageErasesTypes;
    assert forall s :: s in symbols ==> (Declares(s, to, b.name) <==> s.file == to && s.name == b.name);
    if exists s :: s in symbols && s.file == to && s.name == b.name && s.exported {
      var s :| s in symbols && s.file == to && s.name == b.name && s.exported;
      assert Declares(s, to, b.name);
    }
  }

  /** An edge with one value binding is kept: a binding that its import does not erase, of a name the target declares as
      a function, a class or a constant. */
  lemma ValueBindingKeepsEdge(calls: seq<Call>, symbols: seq<SourceSymbol>, gate: bool, c: Call, s: SourceSymbol)
    requires c in calls && !c.binding.erased
    requires s in symbols && s.file == c.to && s.name == c.binding.name
    requires s.kind == Function || s.kind == Class || s.kind == Const
    ensures (c.from, c.to) !in Excluded(RecordedAll(calls), symbols, gate)
  {
    RefineExcludesErased(calls, symbols, gate, (c.from, c.to));
    ErasableIff(symbols, gate, c.to, c.binding);
    hide Erasable, Excluded, RecordedAll;
  }

  /** So is an edge with a binding of a name that nothing declares: silence is no evidence. */
  lemma UndeclaredNameKeepsEdge(calls: seq<Call>, symbols: seq<SourceSymbol>, gate: bool, c: Call)
    requires c in calls && !c.binding.erased
    requires forall s :: s in symbols ==> s.file != c.to || s.name != c.binding.name
    ensures (c.from, c.to) !in Excluded(RecordedAll(calls), symbols, gate)
  {
    RefineExcludesErased(calls, symbols, gate, (c.from, c.to));
    ErasableIff(symbols, gate, c.to, c.binding);
    hide Erasable, Excluded, RecordedAll;
  }

  /** And into a file of any other language only what the imports erase is excluded. */
  lemma OtherLanguagesKeepEdges(calls: seq<Call>, symbols: seq<SourceSymbol>, gate: bool, p: Pair)
    requires forall stem: string, ending: string ::
      ending in [".ts", ".tsx", ".js", ".jsx", ".mts", ".cts"] ==> p.1 != stem + ending
    ensures p in Excluded(RecordedAll(calls), symbols, gate) <==>
      (exists c :: c in calls && (c.from, c.to) == p)
      && (forall c :: c in calls && (c.from, c.to) == p ==> c.binding.erased)
  {
    RefineExcludesErased(calls, symbols, gate, p);
    forall c | c in calls ensures c.to == p.1 ==> (Erasable(symbols, gate, c.to, c.binding) <==> c.binding.erased) {
      ErasableIff(symbols, gate, c.to, c.binding);
    }
    hide Erasable, Excluded, RecordedAll;
  }

  /** The exclusion set depends only on which calls were made and which symbols exist, not on their order. */
  lemma RefineIgnoresOrder(
      calls: seq<Call>, calls': seq<Call>, symbols: seq<SourceSymbol>, symbols': seq<SourceSymbol>, gate: bool)
    requires forall c :: c in calls <==> c in calls'
    requires forall s :: s in symbols <==> s in symbols'
    ensures Excluded(RecordedAll(calls), symbols, gate) == Excluded(RecordedAll(calls'), symbols', gate)
  {
    forall to, b
      ensures Erasable(symbols, gate, to, b) <==> Erasable(symbols', gate, to, b)
    {
    }
    forall p
      ensures p in Excluded(RecordedAll(calls), symbols, gate) <==> p in Excluded(RecordedAll(calls'), symbols', gate)
    {
      RefineExcludesErased(calls, symbols, gate, p);
      RefineExcludesErased(calls', symbols', gate, p);
    }
  }

  /** With the gate off only the import statements decide, and turning it on never keeps an edge it excluded. */
  lemma GateOffIsImportSideOnly(calls: seq<Call>, symbols: seq<SourceSymbol>, p: Pair)
    ensures p in Excluded(RecordedAll(calls), symbols, false)
       <==> (exists c :: c in calls && (c.from, c.to) == p)
            && (forall c :: c in calls && (c.from, c.to) == p ==> c.binding.erased)
    ensures p in Excluded(RecordedAll(calls), symbols, false) ==> p in Excluded(RecordedAll(calls), symbols, true)
  {
    RefineExcludesErased(calls, symbols, false, p);
    RefineExcludesErased(calls, symbols, true, p);
  }

  // ----- the composed meaning of a reported cycle ------------------------------------------------

  /** A dependency between two files that some binding keeps at run time, or that no binding was recorded for. */
  ghost predicate RuntimeImport(
      dep: DepGraph, calls: seq<Call>, symbols: seq<SourceSymbol>, gate: bool, u: Node, w: Node) {
    && Edge(dep, u, w) && u != w
    && ((forall c :: c in calls ==> (c.from, c.to) != (u, w))
        || exists c :: c in calls && (c.from, c.to) == (u, w) && !Erasable(symbols, gate, w, c.binding))
  }

  /** The whole pass: record every binding, refine, and search what is left. */
  method FindRuntimeCycles(dep: DepGraph, calls: seq<Call>, symbols: seq<SourceSymbol>, gate: bool)
    returns (cycles: seq<seq<Node>>)
    ensures cycles == CircularOf(dep, Excluded(RecordedAll(calls), symbols, gate))
  {
    var candidates := new NoncycleCandidates();
    for i := 0 to |calls|
      invariant candidates.edges == RecordedAll(calls[..i])
    {
      assert calls[..i + 1][..i] == calls[..i];
      candidates.Record(calls[i].from, calls[i].to, calls[i].binding.name, calls[i].binding.erased);
    }
    assert calls[..|calls|] == calls;
    var excluded := candidates.Refine(symbols, gate);
    cycles := CircularFromDepExcluding(dep, excluded);
  }

  lemma ReportsSameCycles(g: Adjacency, h: Adjacency, out: seq<seq<Node>>)
    requires ReportsCycles(g, out)
    requires forall u, w :: Edge(g, u, w) <==> Edge(h, u, w)
    ensures ReportsCycles(h, out)
  {
    ReachInSupergraph(g, h);
    ReachInSupergraph(h, g);
  }

  /** What a run calls a cycle is exactly a cycle of runtime imports: for a graph `g` holding the runtime
      imports and nothing else, the reported groups are its mutual-reachability classes of two or more files. */
  lemma ReportedCyclesAreRuntimeCycles(
      dep: DepGraph, calls: seq<Call>, symbols: seq<SourceSymbol>, gate: bool, g: Adjacency)
    requires forall u, w :: Edge(g, u, w) <==> RuntimeImport(dep, calls, symbols, gate, u, w)
    ensures ReportsCycles(g, CircularOf(dep, Excluded(RecordedAll(calls), symbols, gate)))
  {
    var excluded := Excluded(RecordedAll(calls), symbols, gate);
    RuntimeGraphEdges(dep, excluded);
    forall u, w
      ensures Edge(g, u, w) <==> Edge(RuntimeGraph(dep, excluded), u, w)
    {
      RefineExcludesErased(calls, symbols, gate, (u, w));
    }
    CircularIsRuntimeCycles(dep, excluded);
    ReportsSameCycles(RuntimeGraph(dep, excluded), g, CircularOf(dep, excluded));
  }

  /** Two files that import values of each other are reported together, whatever else is recorded. */
  lemma ValueCycleIsReported(
      dep: DepGraph, calls: seq<Call>, symbols: seq<SourceSymbol>, gate: bool,
      c: Call, s: SourceSymbol, d: Call, r: SourceSymbol)
    requires c in calls && d in calls && c.from == d.to && c.to == d.from && c.from != c.to
    requires Edge(dep, c.from, c.to) && Edge(dep, d.from, d.to) && !c.binding.erased && !d.binding.erased
    requires s in symbols && s.file == c.to && s.name == c.binding.name && s.kind in {Function, Class, Const}
    requires r in symbols && r.file == d.to && r.name == d.binding.name && r.kind in {Function, Class, Const}
    ensures Together(CircularOf(dep, Excluded(RecordedAll(calls), symbols, gate)), c.from, c.to)
  {
    var excluded := Excluded(RecordedAll(calls), symbols, gate);
    ValueBindingKeepsEdge(calls, symbols, gate, c, s);
    ValueBindingKeepsEdge(calls, symbols, gate, d, r);
    hide Excluded, RecordedAll;
    RuntimeGraphEdges(dep, excluded);
    var g := RuntimeGraph(dep, excluded);
    ReachEdge(g, c.from, c.to);
    ReachEdge(g, d.from, d.to);
    CircularIsRuntimeCycles(dep, excluded);
  }
}
