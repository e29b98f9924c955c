/** The build-time fingerprint of a crate: a hash of its sources and manifest and of those of every crate it
    depends on by path. A string here is a sequence of bytes. */
module SourceFingerprint {
  import opened Options
  import opened Digraph
  import opened Ordering
  import opened Newlines
  import opened Sequences

  // ----- hashing -----------------------------------------------------------------------------------

  const FNV_OFFSET: bv64 := 0xcbf2_9ce4_8422_2325

  /** The halves of a byte. */
  function TwoHalves(high: bv4, low: bv4): bv8 {
    ((high as bv8) << 4) | (low as bv8)
  }

  function Half(n: nat): bv4
    requires n < 16
  {
    n as bv4
  }

  function Byte(c: char): bv8 {
    var n := c as int % 256;
    TwoHalves(Half(n / 16), Half(n % 16))
  }

  function TimesPrime(h: bv64): bv64 {
    h * 0x0000_0100_0000_01b3
  }

  function Mixed(h: bv64, b: bv8): bv64 {
    h ^ (b as bv64)
  }

  function FnvStep(h: bv64, c: char): bv64 {
    TimesPrime(Mixed(h, Byte(c)))
  }

  function Fnv(h: bv64, s: string): bv64
    decreases |s|
  {
    if s == [] then h else Fnv(FnvStep(h, s[0]), s[1..])
  }

  method FnvBytes(h0: bv64, bytes: string) returns (h: bv64)
    ensures h == Fnv(h0, bytes)
  {
    h := h0;
    var i := 0;
    while i < |bytes|
      invariant 0 <= i <= |bytes|
      invariant Fnv(h, bytes[i..]) == Fnv(h0, bytes)
    {
      assert bytes[i..][1..] == bytes[i + 1..];
      h := FnvStep(h, bytes[i]);
      i := i + 1;
    }
  }

  /** Hashing piece by piece hashes the concatenation. */
  lemma {:induction false} FnvConcat(h: bv64, a: string, b: string)
    ensures Fnv(h, a + b) == Fnv(Fnv(h, a), b)
    decreases |a|
  {
    if a == [] {
      assert a + b == b;
    } else {
      assert (a + b)[1..] == a[1..] + b;
      FnvConcat(FnvStep(h, a[0]), a[1..], b);
    }
  }

  function HexDigit(d: bv64): char {
    if d < 10 then '0' + (d as char) else if d < 16 then 'a' + ((d - 10) as char) else '?'
  }

  /** The last `n` hexadecimal digits. */
  function Hex(h: bv64, n: nat): string {
    if n == 0 then [] else Hex(h >> 4, n - 1) + [HexDigit(h & 0xf)]
  }

  // ----- one crate ---------------------------------------------------------------------------------

  /** A source file under the crate's source directory: its path from there and, if readable, its bytes. */
  datatype SourceFile = SourceFile(rel: string, content: Option<string>)

  /** A crate directory: its source files as the file system lists them, its manifest if readable, and the
      values of the path dependencies the manifest declares. */
  datatype Crate = Crate(files: seq<SourceFile>, manifest: Option<string>, declared: seq<string>)

  const UNREADABLE := "<unreadable>"

  function FileBytes(content: Option<string>): string {
    if content.Some? then Normalized(content.value) else UNREADABLE
  }

  predicate RelLe(a: SourceFile, b: SourceFile) {
    StringLe(a.rel, b.rel)
  }

  /** Each path is listed once. */
  ghost predicate OncePerPath(files: seq<SourceFile>) {
    forall a, b :: a in files && b in files && a.rel == b.rel ==> a == b
  }

  /** What one file adds to the text of its crate. */
  function Piece(f: SourceFile): string {
    f.rel + FileBytes(f.content)
  }

  function FilesText(files: seq<SourceFile>): string {
    if files == [] then []
    else FilesText(files[..|files| - 1]) + Piece(files[|files| - 1])
  }

  method HashFile(h0: bv64, f: SourceFile) returns (h: bv64)
    ensures h == Fnv(h0, Piece(f))
  {
    hide Fnv;
    FnvConcat(h0, f.rel, FileBytes(f.content));
    h := FnvBytes(h0, f.rel);
    match f.content {
      case Some(bytes) =>
        var normalized := NormalizeNewlines(bytes);
        h := FnvBytes(h, normalized);
      case None =>
        h := FnvBytes(h, UNREADABLE);
    }
  }

  lemma FilesTextStep(files: seq<SourceFile>, i: nat)
    requires i < |files|
    ensures FilesText(files[..i + 1]) == FilesText(files[..i]) + Piece(files[i])
  {
    assert files[..i + 1][..i] == files[..i];
  }

  lemma FnvOfNothing(h: bv64)
    ensures Fnv(h, FilesText([])) == h
  {
  }

  /** The source directory's part of the fingerprint. */
  method DirFingerprint(listed: seq<SourceFile>) returns (h: bv64)
    ensures h == Fnv(FNV_OFFSET, FilesText(Sort(RelLe, listed)))
  {
    hide Fnv, Sort, FilesText, Piece;
    var files := Sort(RelLe, listed);
    h := FNV_OFFSET;
    FnvOfNothing(h);
    var i := 0;
    while i < |files|
      invariant 0 <= i <= |files|
      invariant h == Fnv(FNV_OFFSET, FilesText(files[..i]))
    {
      FilesTextStep(files, i);
      FnvConcat(FNV_OFFSET, FilesText(files[..i]), Piece(files[i]));
      h := HashFile(h, files[i]);
      i := i + 1;
    }
    assert files[..|files|] == files;
  }

  /** The order in which directories list their files does not matter. */
  lemma ListingOrderDoesNotMatter(a: seq<SourceFile>, b: seq<SourceFile>)
    requires multiset(a) == multiset(b) && OncePerPath(a)
    ensures Sort(RelLe, a) == Sort(RelLe, b)
  {
    StringOrder();
    SortCanonical(RelLe, a, b);
  }

  function CrateText(c: Crate): string {
    FilesText(Sort(RelLe, c.files)) + FileBytes(c.manifest)
  }

  function CrateHash(c: Crate): bv64 {
    Fnv(FNV_OFFSET, CrateText(c))
  }

  method HashCrate(c: Crate) returns (h: bv64)
    ensures h == CrateHash(c)
  {
    h := DirFingerprint(c.files);
    FnvConcat(FNV_OFFSET, FilesText(Sort(RelLe, c.files)), FileBytes(c.manifest));
    match c.manifest {
      case Some(bytes) =>
        var normalized := NormalizeNewlines(bytes);
        h := FnvBytes(h, normalized);
      case None =>
        h := FnvBytes(h, UNREADABLE);
    }
  }

  // ----- the tree of crates ------------------------------------------------------------------------

  /** The file system as the walk sees it: which directory a spelling of a path resolves to, if it exists, and
      what each directory holds. */
  datatype World = World(dirs: set<string>, canonical: string -> Option<string>, crate: string -> Crate)

  function Under(dir: string, value: string): string {
    if value != [] && value[0] == '/' then value else dir + "/" + value
  }

  /** There are finitely many directories, a resolved path resolves to itself, and a path below a directory
      resolves alike whichever way the directory is spelled. */
  ghost predicate Sane(w: World) {
    && (forall d :: w.canonical(d).Some? ==> w.canonical(d).value in w.dirs)
    && (forall c :: c in w.dirs ==> w.canonical(c) == Some(c))
    && (forall d, v {:trigger w.canonical(Under(d, v))} :: w.canonical(d).Some? ==>
          w.canonical(Under(d, v)) == w.canonical(Under(w.canonical(d).value, v)))
  }

  function Resolved(w: World, dirs: seq<string>): seq<string> {
    if dirs == [] then []
    else Resolved(w, dirs[..|dirs| - 1]) + (match w.canonical(dirs[|dirs| - 1]) case Some(c) => [c] case None => [])
  }

  function Declared(w: World, dir: string, values: seq<string>): seq<string> {
    seq(|values|, i requires 0 <= i < |values| => Under(dir, values[i]))
  }

  /** Which crate depends on which by path. A dependency that does not exist is no edge. */
  function Dependencies(w: World): Adjacency {
    map c | c in w.dirs :: Resolved(w, Declared(w, c, w.crate(c).declared))
  }

  ghost predicate InClosure(w: World, dir: string, c: string) {
    w.canonical(dir).Some? && Reach(Dependencies(w), w.canonical(dir).value, c)
  }

  /** The crates reached by path dependencies, the crate itself included. */
  ghost function Closure(w: World, dir: string): set<string> {
    set c | c in w.dirs && InClosure(w, dir, c)
  }

  lemma {:induction false} ResolvedMembers(w: World, dirs: seq<string>, c: string)
    ensures c in Resolved(w, dirs) <==> exists i :: 0 <= i < |dirs| && w.canonical(dirs[i]) == Some(c)
  {
    if dirs == [] {
    } else {
      var front := dirs[..|dirs| - 1];
      ResolvedMembers(w, front, c);
      if c in Resolved(w, front) {
        var i :| 0 <= i < |front| && w.canonical(front[i]) == Some(c);
        assert w.canonical(dirs[i]) == Some(c);
      }
    }
  }

  /** Some entry of the queue resolves to `c`. */
  ghost predicate Queued(w: World, queue: seq<string>, c: string) {
    exists i :: 0 <= i < |queue| && w.canonical(queue[i]) == Some(c)
  }

  /** However a directory is spelled, its dependencies queue exactly its edges. */
  lemma DeclaredAreEdges(w: World, dir: string, t: string)
    requires Sane(w) && w.canonical(dir).Some?
    ensures var c := w.canonical(dir).value;
      Edge(Dependencies(w), c, t) <==> Queued(w, Declared(w, dir, w.crate(c).declared), t)
  {
    var c := w.canonical(dir).value;
    var values := w.crate(c).declared;
    ResolvedMembers(w, Declared(w, c, values), t);
    forall i | 0 <= i < |values|
      ensures w.canonical(Declared(w, dir, values)[i]) == w.canonical(Declared(w, c, values)[i])
    {
      assert w.canonical(Under(dir, values[i])) == w.canonical(Under(c, values[i]));
    }
  }

  // ----- the walk ----------------------------------------------------------------------------------

  /** What is queued or visited lies in the closure. */
  ghost predicate Inside(w: World, crateDir: string, queue: seq<string>, visited: set<string>) {
    && (forall c :: c in visited ==> InClosure(w, crateDir, c))
    && (forall c {:trigger Queued(w, queue, c)} :: Queued(w, queue, c) ==> InClosure(w, crateDir, c))
  }

  /** The start and every dependency of a visited crate are queued or visited. */
  ghost predicate Frontier(w: World, crateDir: string, queue: seq<string>, visited: set<string>) {
    && (w.canonical(crateDir).Some? ==>
          w.canonical(crateDir).value in visited || Queued(w, queue, w.canonical(crateDir).value))
    && (forall c, t {:trigger Edge(Dependencies(w), c, t)} :: c in visited && Edge(Dependencies(w), c, t) ==>
          t in visited || Queued(w, queue, t))
  }

  lemma QueuedSplits(w: World, a: seq<string>, b: seq<string>, c: string)
    ensures Queued(w, a + b, c) <==> Queued(w, a, c) || Queued(w, b, c)
  {
    if Queued(w, a + b, c) {
      var i :| 0 <= i < |a + b| && w.canonical((a + b)[i]) == Some(c);
      if i >= |a| { assert w.canonical(b[i - |a|]) == Some(c); }
    }
    if Queued(w, a, c) {
      var i :| 0 <= i < |a| && w.canonical(a[i]) == Some(c);
      assert w.canonical((a + b)[i]) == Some(c);
    }
    if Queued(w, b, c) {
      var i :| 0 <= i < |b| && w.canonical(b[i]) == Some(c);
      assert w.canonical((a + b)[|a| + i]) == Some(c);
    }
  }

  lemma QueuedOne(w: World, dir: string, c: string)
    ensures Queued(w, [dir], c) <==> w.canonical(dir) == Some(c)
  {
    if w.canonical(dir) == Some(c) { assert w.canonical([dir][0]) == Some(c); }
  }

  /** An entry that resolves to nothing, or to a crate already visited, can be dropped. */
  lemma DropEntry(w: World, crateDir: string, queue: seq<string>, dir: string, visited: set<string>)
    requires Inside(w, crateDir, queue + [dir], visited) && Frontier(w, crateDir, queue + [dir], visited)
    requires w.canonical(dir).Some? ==> w.canonical(dir).value in visited
    ensures Inside(w, crateDir, queue, visited) && Frontier(w, crateDir, queue, visited)
  {
    forall c ensures Queued(w, queue + [dir], c) <==> Queued(w, queue, c) || w.canonical(dir) == Some(c) {
      QueuedSplits(w, queue, [dir], c);
      QueuedOne(w, dir, c);
    }
  }

  /** Visiting a crate queues its dependencies. */
  lemma VisitEntry(w: World, crateDir: string, queue: seq<string>, dir: string, visited: set<string>)
    requires Sane(w) && w.canonical(dir).Some?
    requires Inside(w, crateDir, queue + [dir], visited) && Frontier(w, crateDir, queue + [dir], visited)
    ensures var c := w.canonical(dir).value; var next := queue + Declared(w, dir, w.crate(c).declared);
      Inside(w, crateDir, next, visited + {c}) && Frontier(w, crateDir, next, visited + {c})
  {
    var c := w.canonical(dir).value;
    var more := Declared(w, dir, w.crate(c).declared);
    QueuedSplits(w, queue, [dir], c);
    QueuedOne(w, dir, c);
    assert InClosure(w, crateDir, c);
    forall t
      ensures Queued(w, queue + [dir], t) <==> Queued(w, queue, t) || t == c
      ensures Queued(w, queue + more, t) <==> Queued(w, queue, t) || Edge(Dependencies(w), c, t)
      ensures Edge(Dependencies(w), c, t) ==> InClosure(w, crateDir, t)
    {
      QueuedSplits(w, queue, [dir], t);
      QueuedOne(w, dir, t);
      QueuedSplits(w, queue, more, t);
      DeclaredAreEdges(w, dir, t);
      if Edge(Dependencies(w), c, t) { ReachStep(Dependencies(w), w.canonical(crateDir).value, c, t); }
    }
  }

  /** With nothing queued, the visited crates are the closure. */
  lemma WalkIsComplete(w: World, crateDir: string, visited: set<string>, c: string)
    requires Inside(w, crateDir, [], visited) && Frontier(w, crateDir, [], visited)
    ensures c in visited <==> InClosure(w, crateDir, c)
  {
    if InClosure(w, crateDir, c) {
      ReachStaysClosed(Dependencies(w), visited, w.canonical(crateDir).value, c);
    }
  }

  /** Everything the walk can reach is a directory. */
  lemma {:induction false} ReachedExists(w: World, p: seq<Node>, u: Node, c: Node)
    requires Sane(w) && u in w.dirs && Walk(Dependencies(w), p, u, c)
    ensures c in w.dirs
  {
    if |p| <= 1 {
    } else {
      ResolvedMembers(w, Declared(w, u, w.crate(u).declared), p[1]);
      ReachedExists(w, p[1..], p[1], c);
    }
  }

  lemma ClosureMembers(w: World, dir: string, c: string)
    requires Sane(w)
    ensures c in Closure(w, dir) <==> InClosure(w, dir, c)
  {
    if InClosure(w, dir, c) {
      var root := w.canonical(dir).value;
      var p :| Walk(Dependencies(w), p, root, c);
      ReachedExists(w, p, root, c);
    }
  }

  lemma WalkStarts(w: World, crateDir: string)
    ensures Inside(w, crateDir, [crateDir], {}) && Frontier(w, crateDir, [crateDir], {})
  {
    forall c ensures Queued(w, [crateDir], c) ==> InClosure(w, crateDir, c) {
      QueuedOne(w, crateDir, c);
      if w.canonical(crateDir) == Some(c) { ReachRefl(Dependencies(w), c); }
    }
    if w.canonical(crateDir).Some? { QueuedOne(w, crateDir, w.canonical(crateDir).value); }
  }

  // ----- the value ---------------------------------------------------------------------------------

  function LastComponent(name: string): string {
    if name == [] || name[|name| - 1] == '/' then []
    else LastComponent(name[..|name| - 1]) + [name[|name| - 1]]
  }

  /** What one crate adds to the text that is hashed. */
  function Contribution(name: string, hash: bv64): string {
    LastComponent(name) + Hex(hash, 16)
  }

  function Contributions(hash: string -> bv64, names: seq<string>): string {
    if names == [] then []
    else Contributions(hash, names[..|names| - 1]) + Contribution(names[|names| - 1], hash(names[|names| - 1]))
  }

  function HashOf(w: World): string -> bv64 {
    name => CrateHash(w.crate(name))
  }

  /** The text hashed for a set of crates, taken in the order of their paths. */
  ghost function FingerprintText(w: World, crates: set<string>): string {
    Contributions(HashOf(w), Ascending(crates))
  }

  ghost function Fingerprint(w: World, crates: set<string>): bv64 {
    Fnv(FNV_OFFSET, FingerprintText(w, crates))
  }

  method CollectCrates(w: World, crateDir: string) returns (perCrate: map<string, bv64>)
    requires Sane(w)
    ensures perCrate.Keys == Closure(w, crateDir)
    ensures forall c :: c in perCrate ==> perCrate[c] == CrateHash(w.crate(c))
  {
    hide CrateHash, InClosure, Inside, Frontier, Declared;
    var visited: set<string> := {};
    var queue := [crateDir];
    perCrate := map[];
    WalkStarts(w, crateDir);
    while queue != []
      invariant visited <= w.dirs && perCrate.Keys == visited
      invariant Inside(w, crateDir, queue, visited) && Frontier(w, crateDir, queue, visited)
      invariant forall c :: c in perCrate ==> perCrate[c] == CrateHash(w.crate(c))
      decreases w.dirs - visited, |queue|
    {
      var dir := queue[|queue| - 1];
      assert queue == queue[..|queue| - 1] + [dir];
      queue := queue[..|queue| - 1];
      var found := w.canonical(dir);
      if found.None? || found.value in visited {
        DropEntry(w, crateDir, queue, dir, visited);
        continue;
      }
      var canonical := found.value;
      VisitEntry(w, crateDir, queue, dir, visited);
      assert canonical in w.dirs - visited;
      visited := visited + {canonical};
      var crateHash := HashCrate(w.crate(canonical));
      perCrate := perCrate[canonical := crateHash];
      queue := queue + Declared(w, dir, w.crate(canonical).declared);
    }
    forall c ensures c in visited <==> InClosure(w, crateDir, c) {
      WalkIsComplete(w, crateDir, visited, c);
    }
    assert visited == Closure(w, crateDir);
  }

  lemma ContributionsStep(hash: string -> bv64, names: seq<string>, i: nat)
    requires i < |names|
    ensures Contributions(hash, names[..i + 1])
         == Contributions(hash, names[..i]) + Contribution(names[i], hash(names[i]))
  {
    assert names[..i + 1][..i] == names[..i];
  }

  lemma FnvOfNoCrate(hash: string -> bv64, h: bv64)
    ensures Fnv(h, Contributions(hash, [])) == h
  {
  }

  /** The fingerprint: the walk ends on every dependency relation, cyclic ones included, and the value is a
      function of what path dependencies reach. */
  method ClosureFingerprint(w: World, crateDir: string) returns (h: bv64)
    requires Sane(w)
    ensures h == Fingerprint(w, Closure(w, crateDir))
  {
    hide InClosure, Closure, Contribution, CrateHash, Contributions, Fnv;
    var perCrate := CollectCrates(w, crateDir);
    var names := CollectAscending(perCrate.Keys);
    h := FNV_OFFSET;
    ghost var hash := HashOf(w);
    FnvOfNoCrate(hash, h);
    var i := 0;
    while i < |names|
      invariant 0 <= i <= |names|
      invariant h == Fnv(FNV_OFFSET, Contributions(hash, names[..i]))
    {
      AscendingMembers(perCrate.Keys, names[i]);
      ContributionsStep(hash, names, i);
      ContributionSplits(names[i], perCrate[names[i]]);
      FnvConcat(FNV_OFFSET, Contributions(hash, names[..i]), Contribution(names[i], perCrate[names[i]]));
      FnvConcat(h, LastComponent(names[i]), Hex(perCrate[names[i]], 16));
      h := FnvBytes(h, LastComponent(names[i]));
      h := FnvBytes(h, Hex(perCrate[names[i]], 16));
      i := i + 1;
    }
    assert names[..|names|] == names;
  }

  lemma ContributionSplits(name: string, hash: bv64)
    ensures Contribution(name, hash) == LastComponent(name) + Hex(hash, 16)
  {
  }

  /** The two worlds look the same from a crate: same contents, and its dependencies resolve alike. */
  ghost predicate SameCrate(v: World, w: World, c: string) {
    && c in v.dirs && c in w.dirs && v.crate(c) == w.crate(c)
    && Dependencies(v)[c] == Dependencies(w)[c]
  }

  lemma {:induction false} WalkCarriesOver(v: World, w: World, p: seq<Node>, u: Node, c: Node)
    requires forall x :: Reach(Dependencies(v), u, x) ==> SameCrate(v, w, x)
    ensures Walk(Dependencies(v), p, u, c) <==> Walk(Dependencies(w), p, u, c)
    decreases |p|
  {
    var a := Dependencies(v);
    ReachRefl(a, u);
    assert SameCrate(v, w, u);
    if |p| <= 1 {
    } else if Edge(a, u, p[1]) {
      forall x | Reach(a, p[1], x) ensures SameCrate(v, w, x) {
        ReachEdge(a, u, p[1]);
        ReachTrans(a, u, p[1], x);
      }
      WalkCarriesOver(v, w, p[1..], p[1], c);
    }
  }

  /** Nothing outside the closure matters: two file systems that agree on the closure of a crate give it one
      closure. */
  lemma OnlyTheClosureMatters(v: World, w: World, dir: string, c: string)
    requires v.canonical(dir) == w.canonical(dir)
    requires forall x :: InClosure(v, dir, x) ==> SameCrate(v, w, x)
    ensures InClosure(v, dir, c) <==> InClosure(w, dir, c)
  {
    if v.canonical(dir).Some? {
      var root := v.canonical(dir).value;
      forall x | Reach(Dependencies(v), root, x) ensures SameCrate(v, w, x) {
        assert InClosure(v, dir, x);
      }
      if InClosure(v, dir, c) {
        var p :| Walk(Dependencies(v), p, root, c);
        WalkCarriesOver(v, w, p, root, c);
      }
      if InClosure(w, dir, c) {
        var p :| Walk(Dependencies(w), p, root, c);
        WalkCarriesOver(v, w, p, root, c);
      }
    }
  }

  lemma {:induction false} SameContributions(
      g: string -> bv64, h: string -> bv64, names: seq<string>, others: seq<string>)
    requires |names| == |others|
    requires forall i :: 0 <= i < |names| ==>
      LastComponent(names[i]) == LastComponent(others[i]) && g(names[i]) == h(others[i])
    ensures Contributions(g, names) == Contributions(h, others)
  {
    if names == [] {
    } else {
      SameContributions(g, h, names[..|names| - 1], others[..|others| - 1]);
    }
  }

  /** So they give it one fingerprint. */
  lemma FingerprintOfClosure(v: World, w: World, dir: string)
    requires Sane(v) && Sane(w) && v.canonical(dir) == w.canonical(dir)
    requires forall c :: InClosure(v, dir, c) ==> SameCrate(v, w, c)
    ensures Closure(v, dir) == Closure(w, dir)
    ensures Fingerprint(v, Closure(v, dir)) == Fingerprint(w, Closure(w, dir))
  {
    hide CrateHash, Contributions, InClosure, Closure, SameCrate;
    forall c ensures c in Closure(v, dir) <==> c in Closure(w, dir) {
      ClosureMembers(v, dir, c);
      ClosureMembers(w, dir, c);
      OnlyTheClosureMatters(v, w, dir, c);
    }
    forall c | c in Closure(v, dir) ensures SameCrate(v, w, c) {
      ClosureMembers(v, dir, c);
    }
    SameFingerprint(v, w, Closure(v, dir));
  }

  lemma SameFingerprint(v: World, w: World, crates: set<string>)
    requires forall c :: c in crates ==> SameCrate(v, w, c)
    ensures Fingerprint(v, crates) == Fingerprint(w, crates)
  {
    hide CrateHash, Contributions;
    var names := Ascending(crates);
    forall i | 0 <= i < |names| ensures CrateHash(v.crate(names[i])) == CrateHash(w.crate(names[i])) {
      AscendingMembers(crates, names[i]);
    }
    SameContributions(HashOf(v), HashOf(w), names, names);
  }

  // ----- moving crates -----------------------------------------------------------------------------

  /** The digits of a value within `n` hexadecimal places. */
  ghost predicate Within(h: bv64, n: nat) {
    if n == 0 then h == 0 else Within(h >> 4, n - 1)
  }

  lemma SixteenPlaces(h: bv64)
    ensures Within(h, 16)
  {
    var h4 := h >> 4 >> 4 >> 4 >> 4;
    var h8 := h4 >> 4 >> 4 >> 4 >> 4;
    var h12 := h8 >> 4 >> 4 >> 4 >> 4;
    var h16 := h12 >> 4 >> 4 >> 4 >> 4;
    assert h16 == 0;
    assert Within(h16, 0);
    FourPlaces(h12, 0);
    FourPlaces(h8, 4);
    FourPlaces(h4, 8);
    FourPlaces(h, 12);
  }

  lemma FourPlaces(h: bv64, n: nat)
    ensures Within(h, n + 4) <==> Within(h >> 4 >> 4 >> 4 >> 4, n)
  {
    assert Within(h, n + 4) <==> Within(h >> 4, n + 3);
    assert Within(h >> 4, n + 3) <==> Within(h >> 4 >> 4, n + 2);
    assert Within(h >> 4 >> 4, n + 2) <==> Within(h >> 4 >> 4 >> 4, n + 1);
  }

  lemma DigitsDiffer(a: bv64, b: bv64)
    requires a < 16 && b < 16 && HexDigit(a) == HexDigit(b)
    ensures a == b
  {
  }

  lemma NibbleJoins(g: bv64, h: bv64)
    ensures g & 0xf < 16
    ensures g >> 4 == h >> 4 && g & 0xf == h & 0xf ==> g == h
  {
  }

  lemma {:induction false} HexTells(g: bv64, h: bv64, n: nat)
    requires Within(g, n) && Within(h, n) && Hex(g, n) == Hex(h, n)
    ensures g == h
    decreases n
  {
    if n == 0 {
    } else {
      var a, b := Hex(g >> 4, n - 1), Hex(h >> 4, n - 1);
      HexLength(g >> 4, n - 1);
      HexLength(h >> 4, n - 1);
      SuffixesAgree(a, [HexDigit(g & 0xf)], b, [HexDigit(h & 0xf)]);
      assert [HexDigit(g & 0xf)][0] == [HexDigit(h & 0xf)][0];
      HexTells(g >> 4, h >> 4, n - 1);
      NibbleJoins(g, h);
      NibbleJoins(h, g);
      DigitsDiffer(g & 0xf, h & 0xf);
    }
  }

  lemma {:induction false} HexLength(h: bv64, n: nat)
    ensures |Hex(h, n)| == n
    decreases n
  {
    if n == 0 {
    } else {
      HexLength(h >> 4, n - 1);
    }
  }

  /** Sixteen digits tell hashes apart. */
  lemma HexIsInjective(g: bv64, h: bv64)
    ensures Hex(g, 16) == Hex(h, 16) <==> g == h
  {
    if Hex(g, 16) == Hex(h, 16) {
      SixteenPlaces(g);
      SixteenPlaces(h);
      HexTells(g, h, 16);
    }
  }

  lemma SuffixesAgree(a: string, x: string, b: string, y: string)
    requires |x| == |y|
    ensures a + x == b + y <==> a == b && x == y
  {
    if a + x == b + y {
      assert |a| == |b|;
      assert (a + x)[..|a|] == a && (b + y)[..|b|] == b;
      assert (a + x)[|a|..] == x && (b + y)[|b|..] == y;
    }
  }

  lemma PrefixesAgree(a: string, x: string, b: string, y: string)
    requires |a| == |b|
    ensures a + x == b + y <==> a == b && x == y
  {
    if a + x == b + y {
      assert |x| == |y| by { assert |a + x| == |b + y|; }
      SuffixesAgree(a, x, b, y);
    }
  }

  lemma MiddlesAgree(before: string, x: string, y: string, after: string)
    ensures before + x + after == before + y + after <==> x == y
  {
    SuffixesAgree(before + x, after, before + y, after);
    PrefixesAgree(before, x, before, y);
  }

  /** What a crate adds tells its last path component and its hash, and nothing else of its path. */
  lemma ContributionTells(a: string, g: bv64, b: string, h: bv64)
    ensures Contribution(a, g) == Contribution(b, h) <==> LastComponent(a) == LastComponent(b) && g == h
  {
    hide Hex, LastComponent;
    HexLength(g, 16);
    HexLength(h, 16);
    HexIsInjective(g, h);
    SuffixesAgree(LastComponent(a), Hex(g, 16), LastComponent(b), Hex(h, 16));
  }

  lemma ContributionLength(a: string, g: bv64)
    ensures |Contribution(a, g)| == |LastComponent(a)| + 16
  {
    HexLength(g, 16);
  }

  lemma {:induction false} ContributionsConcat(hash: string -> bv64, a: seq<string>, b: seq<string>)
    ensures Contributions(hash, a + b) == Contributions(hash, a) + Contributions(hash, b)
  {
    hide Contribution;
    if b == [] {
      assert a + b == a;
    } else {
      var n := |b| - 1;
      assert (a + b)[..|a + b| - 1] == a + b[..n];
      ContributionsConcat(hash, a, b[..n]);
    }
  }

  lemma ContributionsOne(hash: string -> bv64, a: string)
    ensures Contributions(hash, [a]) == Contribution(a, hash(a))
  {
    hide Contribution;
    assert [a][..0] == [];
  }

  /** `g` gives the hashes before a move and `h` those after it. */
  ghost predicate SameHashes(g: string -> bv64, h: string -> bv64, names: seq<string>) {
    forall i :: 0 <= i < |names| ==> g(names[i]) == h(names[i])
  }

  lemma SameHashesSameText(g: string -> bv64, h: string -> bv64, names: seq<string>)
    requires SameHashes(g, h, names)
    ensures Contributions(g, names) == Contributions(h, names)
  {
    hide Contributions, LastComponent;
    SameContributions(g, h, names, names);
  }

  /** A move that keeps the order of the paths changes the hashed text exactly when it changes the last component
      of the crate's path, or the crate's hash. */
  lemma MovedInPlace(
      g: string -> bv64, h: string -> bv64, before: seq<string>, a: string, b: string, after: seq<string>)
    requires SameHashes(g, h, before) && SameHashes(g, h, after)
    ensures Contributions(g, before + [a] + after) == Contributions(h, before + [b] + after)
      <==> LastComponent(a) == LastComponent(b) && g(a) == h(b)
  {
    hide Contributions, LastComponent, Contribution;
    var x, y := Contribution(a, g(a)), Contribution(b, h(b));
    SameHashesSameText(g, h, before);
    SameHashesSameText(g, h, after);
    ContributionsConcat(g, before + [a], after);
    ContributionsConcat(h, before + [b], after);
    ContributionsConcat(g, before, [a]);
    ContributionsConcat(h, before, [b]);
    ContributionsOne(g, a);
    ContributionsOne(h, b);
    ContributionTells(a, g(a), b, h(b));
    MiddlesAgree(Contributions(g, before), x, y, Contributions(g, after));
  }

  /** A move to before the crates `past` changes the hashed text exactly when what the crate adds there, then what
      they add, is not what they add and then what the crate added before; always, when its old hash is not that of
      the last of them. With `g` and `h` exchanged it is a move to after them. */
  lemma MovedPast(
      g: string -> bv64, h: string -> bv64, before: seq<string>, past: seq<string>, a: string, b: string,
      after: seq<string>)
    requires SameHashes(g, h, before) && SameHashes(g, h, past) && SameHashes(g, h, after)
    ensures var m, x, y := Contributions(g, past), Contribution(a, g(a)), Contribution(b, h(b));
      Contributions(g, before + (past + [a]) + after) == Contributions(h, before + ([b] + past) + after) <==>
      m + x == y + m
    ensures past != [] && g(past[|past| - 1]) != g(a) ==>
      Contributions(g, before + (past + [a]) + after) != Contributions(h, before + ([b] + past) + after)
  {
    hide Contributions, LastComponent, Contribution;
    var m, x, y := Contributions(g, past), Contribution(a, g(a)), Contribution(b, h(b));
    SameHashesSameText(g, h, before);
    SameHashesSameText(g, h, past);
    SameHashesSameText(g, h, after);
    ContributionsConcat(g, before + (past + [a]), after);
    ContributionsConcat(h, before + ([b] + past), after);
    ContributionsConcat(g, before, past + [a]);
    ContributionsConcat(h, before, [b] + past);
    ContributionsConcat(g, past, [a]);
    ContributionsConcat(h, [b], past);
    ContributionsOne(g, a);
    ContributionsOne(h, b);
    MiddlesAgree(Contributions(g, before), m + x, y + m, Contributions(g, after));
    if past != [] && m + x == y + m { CommutingHashes(g, past, a, y); }
  }

  lemma CommutingHashes(hash: string -> bv64, past: seq<string>, a: string, y: string)
    requires past != []
    requires Contributions(hash, past) + Contribution(a, hash(a)) == y + Contributions(hash, past)
    ensures hash(past[|past| - 1]) == hash(a)
  {
    hide Hex, LastComponent;
    var n := |past| - 1;
    var last, own := Hex(hash(past[n]), 16), Hex(hash(a), 16);
    var m := Contributions(hash, past);
    HexLength(hash(past[n]), 16);
    HexLength(hash(a), 16);
    HexIsInjective(hash(past[n]), hash(a));
    var front := Contributions(hash, past[..n]) + LastComponent(past[n]);
    assert m == front + last by {
      Regroup(Contributions(hash, past[..n]), LastComponent(past[n]), last);
    }
    Regroup(m, LastComponent(a), own);
    Regroup(y, front, last);
    SuffixesAgree(m + LastComponent(a), own, y + front, last);
  }

  /** Moves that keep the order of the paths and the lengths of their last components: the hashed text stays the
      same exactly when every last component and every hash does. */
  lemma {:induction false} MovesShowInText(
      g: string -> bv64, h: string -> bv64, names: seq<string>, others: seq<string>)
    requires |names| == |others|
    requires forall i :: 0 <= i < |names| ==> |LastComponent(names[i])| == |LastComponent(others[i])|
    ensures Contributions(g, names) == Contributions(h, others) <==>
      forall i :: 0 <= i < |names| ==>
        LastComponent(names[i]) == LastComponent(others[i]) && g(names[i]) == h(others[i])
  {
    hide LastComponent, Contribution;
    if names == [] {
    } else {
      var n := |names| - 1;
      MovesShowInText(g, h, names[..n], others[..n]);
      ContributionLength(names[n], g(names[n]));
      ContributionLength(others[n], h(others[n]));
      ContributionTells(names[n], g(names[n]), others[n], h(others[n]));
      SuffixesAgree(Contributions(g, names[..n]), Contribution(names[n], g(names[n])),
                    Contributions(h, others[..n]), Contribution(others[n], h(others[n])));
    }
  }

  /** Only the last component of a crate's path is hashed: moving crates changes nothing as long as their last
      components and their order stay. */
  lemma MovingIsInvisible(v: World, w: World, from: set<string>, to: set<string>)
    requires |Ascending(from)| == |Ascending(to)|
    requires forall i :: 0 <= i < |Ascending(from)| ==>
      && LastComponent(Ascending(from)[i]) == LastComponent(Ascending(to)[i])
      && v.crate(Ascending(from)[i]) == w.crate(Ascending(to)[i])
    ensures FingerprintText(v, from) == FingerprintText(w, to) && Fingerprint(v, from) == Fingerprint(w, to)
  {
    hide CrateHash, Contributions, LastComponent, Ascending;
    SameContributions(HashOf(v), HashOf(w), Ascending(from), Ascending(to));
  }

  /** A crate alone has the same hashed text after a move exactly when its last path component and its hash stay;
      then it has the same fingerprint. */
  lemma OneCrateMoved(v: World, w: World, a: string, b: string)
    ensures FingerprintText(v, {a}) == FingerprintText(w, {b})
      <==> LastComponent(a) == LastComponent(b) && CrateHash(v.crate(a)) == CrateHash(w.crate(b))
    ensures LastComponent(a) == LastComponent(b) && CrateHash(v.crate(a)) == CrateHash(w.crate(b)) ==>
      Fingerprint(v, {a}) == Fingerprint(w, {b})
  {
    hide CrateHash, Contributions, LastComponent;
    AscendingOne(a);
    AscendingOne(b);
    MovedInPlace(HashOf(v), HashOf(w), [], a, b, []);
    assert [] + [a] + [] == [a] && [] + [b] + [] == [b];
  }

  lemma AscendingOne(a: string)
    ensures Ascending({a}) == [a]
  {
    StringOrder();
    SortSorts(StringLe, Listed({a}));
    assert |multiset(Ascending({a}))| == |multiset({a})|;
    AscendingMembers({a}, Ascending({a})[0]);
  }
}
