/** Repo-relative POSIX path arithmetic: join and normalize, and the walk over ancestor directories. */
module PosixPath {
  import opened Sequences

  // ----- segments of a path ------------------------------------------------------------------------

  /** The pieces between slashes; at least one. */
  function Split(s: string): (r: seq<string>)
    ensures r != []
  {
    if s == [] then [""]
    else
      var r := Split(s[1..]);
      if s[0] == '/' then [""] + r else [[s[0]] + r[0]] + r[1..]
  }

  function Join(segs: seq<string>): string {
    if segs == [] then ""
    else if |segs| == 1 then segs[0]
    else segs[0] + "/" + Join(segs[1..])
  }

  lemma {:induction false} SplitWhole(s: string)
    requires '/' !in s
    ensures Split(s) == [s]
  {
    if s == [] {
    } else {
      SplitWhole(s[1..]);
      assert s == [s[0]] + s[1..];
    }
  }

  lemma SlashFirst(s: string)
    ensures Split("/" + s) == [""] + Split(s)
  {
    assert ("/" + s)[1..] == s;
  }

  lemma SplitHead(c: char, s: string)
    ensures Split([c] + s) == if c == '/' then [""] + Split(s) else [[c] + Split(s)[0]] + Split(s)[1..]
  {
    assert ([c] + s)[1..] == s;
  }

  lemma {:induction false} SplitConcat(a: string, b: string)
    ensures Split(a + "/" + b) == Split(a) + Split(b)
  {
    hide Split;
    if a == [] {
      assert a + "/" + b == ['/'] + b;
      SplitHead('/', b);
      SplitWhole("");
    } else {
      SplitConcat(a[1..], b);
      assert a + "/" + b == [a[0]] + (a[1..] + "/" + b) && a == [a[0]] + a[1..];
      SplitHead(a[0], a[1..] + "/" + b);
      SplitHead(a[0], a[1..]);
      Regroup([""], Split(a[1..]), Split(b));
    }
  }

  ghost predicate Slashless(segs: seq<string>) {
    forall i :: 0 <= i < |segs| ==> '/' !in segs[i]
  }

  lemma {:induction false} SplitIsSlashless(s: string)
    ensures Slashless(Split(s))
  {
    if s == [] {
    } else {
      SplitIsSlashless(s[1..]);
    }
  }

  lemma {:induction false} SplitJoin(segs: seq<string>)
    requires segs != [] && Slashless(segs)
    ensures Split(Join(segs)) == segs
  {
    SplitWhole(segs[0]);
    if |segs| <= 1 {
    } else {
      SplitJoin(segs[1..]);
      SplitConcat(segs[0], Join(segs[1..]));
    }
  }

  // ----- the stack machine -------------------------------------------------------------------------

  predicate Skipped(seg: string) {
    seg == "" || seg == "."
  }

  predicate IsName(seg: string) {
    !Skipped(seg) && seg != ".."
  }

  function Push(stack: seq<string>, seg: string): seq<string> {
    if Skipped(seg) then stack
    else if seg == ".." && stack != [] && stack[|stack| - 1] != ".." then stack[..|stack| - 1]
    else stack + [seg]
  }

  function PushAll(segs: seq<string>, stack: seq<string>): seq<string> {
    if segs == [] then stack else PushAll(segs[1..], Push(stack, segs[0]))
  }

  function Joined(dir: string, candidate: string): string {
    if dir == "" then candidate else dir + "/" + candidate
  }

  function JoinAndNormalize(dir: string, candidate: string): string {
    Join(PushAll(Split(Joined(dir, candidate)), []))
  }

  method NormalizeJoined(dir: string, candidate: string) returns (r: string)
    ensures r == JoinAndNormalize(dir, candidate)
  {
    var joined := if dir == "" then candidate else dir + "/" + candidate;
    var segs := Split(joined);
    var stack: seq<string> := [];
    var i := 0;
    while i < |segs|
      invariant 0 <= i <= |segs|
      invariant PushAll(segs[i..], stack) == PushAll(segs, [])
    {
      var seg := segs[i];
      assert segs[i..][1..] == segs[i + 1..];
      i := i + 1;
      if seg == "" || seg == "." {
        continue;
      }
      if seg == ".." {
        if stack != [] && stack[|stack| - 1] != ".." {
          stack := stack[..|stack| - 1];
        } else {
          stack := stack + [".."];
        }
      } else {
        stack := stack + [seg];
      }
    }
    r := Join(stack);
  }

  // ----- what a normalized path is -----------------------------------------------------------------

  function Weight(seg: string): int {
    if Skipped(seg) then 0 else if seg == ".." then 1 else -1
  }

  /** By how much `..` outnumbers names. */
  function Excess(segs: seq<string>): int {
    if segs == [] then 0 else Weight(segs[0]) + Excess(segs[1..])
  }

  function Climb(segs: seq<string>): nat {
    if segs == [] then 0
    else
      var c := Weight(segs[0]) + Climb(segs[1..]);
      if c > 0 then c else 0
  }

  /** `Climb` is the largest excess over all prefixes, the empty one included. */
  lemma {:induction false} ClimbIsLargestExcess(segs: seq<string>) returns (n: nat)
    ensures n <= |segs| && Excess(segs[..n]) == Climb(segs)
    ensures forall i: nat :: i <= |segs| ==> Excess(segs[..i]) <= Climb(segs)
  {
    n := 0;
    if segs == [] {
    } else {
      var m := ClimbIsLargestExcess(segs[1..]);
      if Climb(segs) > 0 {
        n := m + 1;
        assert segs[..n][1..] == segs[1..][..m];
      }
      forall i: nat | i <= |segs| ensures Excess(segs[..i]) <= Climb(segs) {
        if i > 0 { assert segs[..i][1..] == segs[1..][..i - 1]; }
      }
    }
  }

  /** The names no later `..` cancels. */
  function Survivors(segs: seq<string>): seq<string> {
    if segs == [] then []
    else (if IsName(segs[0]) && Climb(segs[1..]) == 0 then [segs[0]] else []) + Survivors(segs[1..])
  }

  function Dots(n: nat): seq<string> {
    seq(n, _ => "..")
  }

  ghost predicate Names(segs: seq<string>) {
    forall i :: 0 <= i < |segs| ==> IsName(segs[i])
  }

  /** What a stack of `a` climbs and the names `ns` becomes when `c` more climbs than names come, and then the names
      `rest`. */
  function Climbed(c: nat, rest: seq<string>, a: nat, ns: seq<string>): seq<string> {
    if c <= |ns| then Dots(a) + ns[..|ns| - c] + rest else Dots(a + c - |ns|) + rest
  }

  function Settled(segs: seq<string>, a: nat, ns: seq<string>): seq<string> {
    Climbed(Climb(segs), Survivors(segs), a, ns)
  }

  lemma ClimbStep(segs: seq<string>)
    requires segs != []
    ensures var c, rest := Climb(segs[1..]), Survivors(segs[1..]);
      && (Skipped(segs[0]) ==> Climb(segs) == c && Survivors(segs) == rest)
      && (segs[0] == ".." ==> Climb(segs) == c + 1 && Survivors(segs) == rest)
      && (IsName(segs[0]) && c > 0 ==> Climb(segs) == c - 1 && Survivors(segs) == rest)
      && (IsName(segs[0]) && c == 0 ==> Climb(segs) == 0 && Survivors(segs) == [segs[0]] + rest)
  {
  }

  lemma NameStays(rest: seq<string>, a: nat, ns: seq<string>, x: string)
    ensures Climbed(0, [x] + rest, a, ns) == Climbed(0, rest, a, ns + [x])
  {
    hide Dots;
    assert ns[..|ns|] == ns && (ns + [x])[..|ns| + 1] == ns + [x];
    Regroup(Dots(a) + ns, [x], rest);
    Regroup(Dots(a), ns, [x]);
  }

  lemma NameIsCancelled(c: nat, rest: seq<string>, a: nat, ns: seq<string>, x: string)
    ensures Climbed(c, rest, a, ns) == Climbed(c + 1, rest, a, ns + [x])
  {
    hide Dots;
    if c <= |ns| { assert (ns + [x])[..|ns| - c] == ns[..|ns| - c]; }
  }

  lemma NothingToCancel(c: nat, rest: seq<string>, a: nat)
    ensures Climbed(c + 1, rest, a, []) == Climbed(c, rest, a + 1, [])
  {
    hide Dots;
    var none: seq<string> := [];
    assert none[..0] == [] && Dots(a + 1) + [] == Dots(a + 1);
  }

  /** The climbs and names of a stack after one more segment. */
  function After(a: nat, ns: seq<string>, x: string): (nat, seq<string>) {
    if Skipped(x) then (a, ns)
    else if x != ".." then (a, ns + [x])
    else if ns == [] then (a + 1, [])
    else (a, ns[..|ns| - 1])
  }

  lemma PushStep(a: nat, ns: seq<string>, x: string)
    requires Names(ns)
    ensures var (b, ms) := After(a, ns, x); Names(ms) && Push(Dots(a) + ns, x) == Dots(b) + ms
  {
    var stack := Dots(a) + ns;
    if Skipped(x) {
    } else if IsName(x) {
      Regroup(Dots(a), ns, [x]);
    } else if ns == [] {
      MoreDots(a);
    } else {
      assert stack[..|stack| - 1] == Dots(a) + ns[..|ns| - 1];
    }
  }

  lemma SettledStep(segs: seq<string>, a: nat, ns: seq<string>)
    requires segs != []
    ensures var (b, ms) := After(a, ns, segs[0]); Settled(segs, a, ns) == Settled(segs[1..], b, ms)
  {
    hide Climbed, Climb, Survivors, Dots;
    var x, c, rest := segs[0], Climb(segs[1..]), Survivors(segs[1..]);
    ClimbStep(segs);
    if Skipped(x) {
    } else if IsName(x) {
      if c == 0 { NameStays(rest, a, ns, x); } else { NameIsCancelled(c - 1, rest, a, ns, x); }
    } else if ns == [] {
      NothingToCancel(c, rest, a);
    } else {
      assert ns == ns[..|ns| - 1] + [ns[|ns| - 1]];
      NameIsCancelled(c, rest, a, ns[..|ns| - 1], ns[|ns| - 1]);
    }
  }

  /** From any normalized stack: climbs first, then names. */
  lemma {:induction false} PushAllSettles(segs: seq<string>, a: nat, ns: seq<string>)
    requires Names(ns)
    ensures PushAll(segs, Dots(a) + ns) == Settled(segs, a, ns)
  {
    hide Push, Settled, After, Dots, Names;
    if segs == [] {
      NothingPushed(a, ns);
    } else {
      var (b, ms) := After(a, ns, segs[0]);
      PushStep(a, ns, segs[0]);
      SettledStep(segs, a, ns);
      PushAllSettles(segs[1..], b, ms);
    }
  }

  lemma NothingPushed(a: nat, ns: seq<string>)
    ensures Settled([], a, ns) == Dots(a) + ns
  {
    assert ns[..|ns|] == ns;
  }

  lemma MoreDots(a: nat)
    ensures Push(Dots(a) + [], "..") == Dots(a + 1) + []
  {
  }

  /** Main result: `k` climbs and then names, `k` being the most by which `..` outnumbers names over a prefix
      of the segments, and the names being exactly those no later `..` cancels. */
  lemma NormalForm(segs: seq<string>)
    ensures PushAll(segs, []) == Dots(Climb(segs)) + Survivors(segs)
    ensures Names(Survivors(segs))
  {
    PushAllSettles(segs, 0, []);
    assert Dots(0) + [] == [];
    SurvivorsAreNames(segs);
  }

  lemma {:induction false} SurvivorsAreNames(segs: seq<string>)
    ensures Names(Survivors(segs))
    ensures Slashless(segs) ==> Slashless(Survivors(segs))
  {
    if segs == [] {
    } else {
      SurvivorsAreNames(segs[1..]);
    }
  }

  // ----- laws of joining ---------------------------------------------------------------------------

  lemma {:induction false} PushAllConcat(a: seq<string>, b: seq<string>, stack: seq<string>)
    ensures PushAll(a + b, stack) == PushAll(b, PushAll(a, stack))
  {
    if a == [] {
      assert a + b == b;
    } else {
      assert (a + b)[1..] == a[1..] + b;
      PushAllConcat(a[1..], b, Push(stack, a[0]));
    }
  }

  lemma {:induction false} ClimbOfDots(k: nat, ns: seq<string>)
    requires Names(ns)
    ensures Climb(Dots(k) + ns) == k && Survivors(Dots(k) + ns) == ns
  {
    var s := Dots(k) + ns;
    if k > 0 {
      assert s[1..] == Dots(k - 1) + ns;
      ClimbOfDots(k - 1, ns);
    } else {
      assert s == ns;
      if ns != [] {
        assert Dots(0) + ns[1..] == ns[1..];
        ClimbOfDots(0, ns[1..]);
      }
    }
  }

  /** A normalized stack is left as it is. */
  lemma NormalIsFixed(segs: seq<string>)
    ensures PushAll(PushAll(segs, []), []) == PushAll(segs, [])
  {
    NormalForm(segs);
    ClimbOfDots(Climb(segs), Survivors(segs));
    NormalForm(PushAll(segs, []));
  }

  lemma NormalIsSlashless(segs: seq<string>)
    requires Slashless(segs)
    ensures Slashless(PushAll(segs, []))
  {
    NormalForm(segs);
    SurvivorsAreNames(segs);
  }

  ghost function Stack(dir: string, candidate: string): seq<string> {
    PushAll(Split(Joined(dir, candidate)), [])
  }

  /** The result, read as segments again. */
  lemma ResultReadsBack(dir: string, candidate: string)
    ensures var n := JoinAndNormalize(dir, candidate);
      PushAll(Split(n), []) == Stack(dir, candidate)
  {
    var segs := Split(Joined(dir, candidate));
    SplitIsSlashless(Joined(dir, candidate));
    NormalIsSlashless(segs);
    NormalIsFixed(segs);
    var stack := PushAll(segs, []);
    if stack != [] {
      SplitJoin(stack);
    } else {
      assert PushAll([""], []) == PushAll([], []);
    }
  }

  lemma JoinedStack(dir: string, candidate: string)
    ensures Stack(dir, candidate) == PushAll(Split(candidate), PushAll(Split(dir), []))
  {
    if dir == "" {
      assert PushAll([""], []) == PushAll([], []);
    } else {
      SplitConcat(dir, candidate);
      PushAllConcat(Split(dir), Split(candidate), []);
    }
  }

  /** Normalizing a result again changes nothing. */
  lemma NormalizeTwice(dir: string, candidate: string)
    ensures var n := JoinAndNormalize(dir, candidate);
      JoinAndNormalize("", n) == n && JoinAndNormalize(n, "") == n
  {
    hide Split, PushAll, Join;
    var n := JoinAndNormalize(dir, candidate);
    ResultReadsBack(dir, candidate);
    JoinedStack("", n);
    JoinedStack(n, "");
    JoinedStack(dir, candidate);
    EmptyPushes(PushAll(Split(n), []));
  }

  lemma EmptyPushes(stack: seq<string>)
    ensures PushAll(Split(""), stack) == stack
  {
    assert [""][1..] == [];
  }

  /** Joining in two steps is joining in one. */
  lemma JoinIsAssociative(a: string, b: string, c: string)
    ensures JoinAndNormalize(JoinAndNormalize(a, b), c) == JoinAndNormalize(a, b + "/" + c)
  {
    hide Split, PushAll, Join;
    var n := JoinAndNormalize(a, b);
    ResultReadsBack(a, b);
    JoinedStack(n, c);
    JoinedStack(a, b);
    JoinedStack(a, b + "/" + c);
    SplitConcat(b, c);
    PushAllConcat(Split(b), Split(c), PushAll(Split(a), []));
  }

  /** A leading slash is absorbed: no candidate leaves the directory it is joined to by being absolute. */
  lemma AbsoluteIsRelative(dir: string, candidate: string)
    ensures JoinAndNormalize(dir, "/" + candidate) == JoinAndNormalize(dir, candidate)
  {
    JoinedStack(dir, candidate);
    JoinedStack(dir, "/" + candidate);
    SlashFirst(candidate);
    assert ([""] + Split(candidate))[1..] == Split(candidate);
  }

  /** A result begins with `..` exactly when the path climbs above the root somewhere. */
  lemma ClimbsAreKept(dir: string, candidate: string)
    ensures var stack := Stack(dir, candidate);
      stack != [] && stack[0] == ".." <==> Climb(Split(Joined(dir, candidate))) > 0
  {
    NormalForm(Split(Joined(dir, candidate)));
  }

  /** No empty or `.` segment, and no `..` after a name. */
  predicate IsNormal(segs: seq<string>) {
    forall i :: 0 <= i < |segs| ==> !Skipped(segs[i]) && (i > 0 && IsName(segs[i - 1]) ==> IsName(segs[i]))
  }

  lemma {:induction false} NormalSplits(segs: seq<string>)
    requires IsNormal(segs)
    ensures segs == Dots(Climb(segs)) + Survivors(segs)
    ensures segs != [] && IsName(segs[0]) ==> Climb(segs) == 0
  {
    if segs == [] {
    } else {
      var tail := segs[1..];
      assert IsNormal(tail);
      if |segs| > 1 { assert IsName(segs[0]) ==> IsName(segs[1]); }
      assert IsName(segs[0]) || segs[0] == "..";
      hide IsNormal, Climb, Survivors, IsName, Skipped;
      NormalSplits(tail);
      ClimbStep(segs);
      NoClimb(tail);
      assert segs == [segs[0]] + tail;
      if IsName(segs[0]) {
        assert Dots(0) == [];
        hide Dots;
        assert tail == Survivors(tail);
      } else {
        assert Dots(Climb(tail) + 1) == [".."] + Dots(Climb(tail));
        hide Dots;
        Regroup([".."], Dots(Climb(tail)), Survivors(tail));
      }
    }
  }

  lemma NoClimb(segs: seq<string>)
    ensures segs == [] ==> Climb(segs) == 0
  {
  }

  /** The root is the identity of joining exactly on paths already in normal form. */
  lemma RootIsIdentity(path: string)
    ensures JoinAndNormalize("", path) == path <==> path == "" || IsNormal(Split(path))
  {
    hide Climb, Survivors, Split, PushAll, IsNormal;
    if path == "" {
      EmptyPushes([]);
    } else {
      if IsNormal(Split(path)) { NormalIsKept(path); }
      if JoinAndNormalize("", path) == path { KeptIsNormal(path); }
    }
  }

  lemma NormalIsKept(path: string)
    requires IsNormal(Split(path))
    ensures JoinAndNormalize("", path) == path
  {
    var segs := Split(path);
    NormalForm(segs);
    NormalSplits(segs);
    SplitJoins(path);
  }

  lemma KeptIsNormal(path: string)
    requires path != "" && JoinAndNormalize("", path) == path
    ensures IsNormal(Split(path))
  {
    var stack := PushAll(Split(path), []);
    NormalForm(Split(path));
    SplitIsSlashless(path);
    NormalIsSlashless(Split(path));
    hide Split, PushAll, Climb, Survivors, IsNormal;
    DotsThenNames(Climb(Split(path)), Survivors(Split(path)));
    assert path == Join(stack);
    SplitJoin(stack);
  }

  lemma DotsThenNames(k: nat, ns: seq<string>)
    requires Names(ns)
    ensures IsNormal(Dots(k) + ns)
  {
  }

  lemma {:induction false} SplitJoins(s: string)
    ensures Join(Split(s)) == s
  {
    if s == [] {
    } else {
      SplitJoins(s[1..]);
    }
  }

  // ----- directories above a path ------------------------------------------------------------------

  /** Position of the last slash, or -1. */
  function LastSlash(s: string): (i: int)
    ensures -1 <= i < |s|
    ensures i >= 0 ==> s[i] == '/'
    ensures forall j :: i < j < |s| ==> s[j] != '/'
  {
    if s == [] then -1 else if s[|s| - 1] == '/' then |s| - 1 else LastSlash(s[..|s| - 1])
  }

  function Dirname(p: string): string {
    var i := LastSlash(p);
    if i >= 0 then p[..i] else ""
  }

  /** `d` followed by a slash begins `p`. */
  predicate Above(d: string, p: string) {
    |d| < |p| && p[..|d|] == d && p[|d|] == '/'
  }

  lemma AboveDirname(d: string, p: string)
    ensures Above(d, p) <==> LastSlash(p) >= 0 && (d == Dirname(p) || Above(d, Dirname(p)))
  {
    var i := LastSlash(p);
    if i >= 0 {
      var q := p[..i];
      if |d| < i {
        assert q[..|d|] == p[..|d|];
      }
    }
  }

  /** Every directory above `rel`, the deepest first, and the root last; the root comes twice when `rel` is at
      the root or begins with a slash. */
  method AncestorDirs(rel: string) returns (out: seq<string>)
    ensures |out| >= 2 && out[|out| - 1] == "" && out[0] == Dirname(rel)
    ensures forall d :: d in out[..|out| - 1] <==> Above(d, rel) || (d == "" && LastSlash(rel) < 0)
    ensures forall i, j :: 0 <= i < j < |out| - 1 ==> |out[j]| < |out[i]|
  {
    var dir := Dirname(rel);
    out := [dir];
    AboveRoot(rel);
    var idx := LastSlash(dir);
    while idx >= 0
      invariant idx == LastSlash(dir)
      invariant |out| >= 1 && out[0] == Dirname(rel) && out[|out| - 1] == dir
      invariant forall d :: d in out || Above(d, dir) <==> Above(d, rel) || (d == "" && LastSlash(rel) < 0)
      invariant forall i, j :: 0 <= i < j < |out| ==> |out[j]| < |out[i]|
      decreases |dir|
    {
      forall d ensures Above(d, dir) <==> d == dir[..idx] || Above(d, dir[..idx]) {
        AboveDirname(d, dir);
      }
      dir := dir[..idx];
      out := out + [dir];
      idx := LastSlash(dir);
    }
    forall d ensures !Above(d, dir) {
      AboveDirname(d, dir);
    }
    out := out + [""];
    assert out[..|out| - 1] + [""] == out;
  }

  lemma AboveRoot(rel: string)
    ensures forall d ::
      d == Dirname(rel) || Above(d, Dirname(rel)) <==> Above(d, rel) || (d == "" && LastSlash(rel) < 0)
  {
    forall d ensures d == Dirname(rel) || Above(d, Dirname(rel)) <==> Above(d, rel) || (d == "" && LastSlash(rel) < 0) {
      AboveDirname(d, rel);
    }
  }

  lemma CutAtSlash(p: string, i: nat)
    requires i < |p| && p[i] == '/'
    ensures p == p[..i] + "/" + p[i + 1..]
  {
  }

  /** The file's directory, joined with its own name, is the normalized path again. */
  lemma DirnameJoins(p: string)
    ensures JoinAndNormalize(Dirname(p), p[LastSlash(p) + 1..]) == JoinAndNormalize("", p)
  {
    hide Split, PushAll, Join, LastSlash;
    var i := LastSlash(p);
    if i > 0 {
      CutAtSlash(p, i);
    } else if i == 0 {
      CutAtSlash(p, 0);
      assert p == "/" + p[1..];
      AbsoluteIsRelative("", p[1..]);
    }
  }
}
