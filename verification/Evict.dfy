/** Size-capped eviction: oldest-written entries go first until the directory is well under its budget. */
module Evict {
  import opened Options
  import opened Ordering

  const U64_MAX: nat := 0xffff_ffff_ffff_ffff

  /** What a directory entry's metadata says; a missing modification time reads as the epoch. */
  datatype Meta = Unreadable | NotAFile | Regular(len: nat, modified: Option<int>)

  datatype Entry = Entry(written: int, len: nat, path: string)

  type Files = map<string, Meta>

  function SatAdd(a: nat, b: nat): nat {
    if a + b <= U64_MAX then a + b else U64_MAX
  }

  function Saturated(n: nat): nat {
    if n <= U64_MAX then n else U64_MAX
  }

  function SatSub(a: nat, b: nat): nat {
    if b <= a then a - b else 0
  }

  function Target(cap: nat): nat {
    cap / 4 * 3
  }

  /** Written earlier first, then shorter, then by path. */
  predicate EntryLe(a: Entry, b: Entry) {
    if a.written != b.written then a.written < b.written
    else if a.len != b.len then a.len < b.len
    else StringLe(a.path, b.path)
  }

  lemma EntryOrder()
    ensures Total(EntryLe)
    ensures forall a, b :: EntryLe(a, b) && EntryLe(b, a) ==> a == b
  {
    StringOrder();
  }

  function EntryOf(path: string, meta: Meta): Entry
    requires meta.Regular?
  {
    Entry(match meta.modified { case Some(t) => t case None => 0 }, meta.len, path)
  }

  function CandidateAt(files: Files, path: string): seq<Entry> {
    if path in files && files[path].Regular? then [EntryOf(path, files[path])] else []
  }

  /** The candidates met when the paths are visited in `order`. */
  function Candidates(files: Files, order: seq<string>): seq<Entry> {
    if order == [] then []
    else
      var n := |order| - 1;
      Candidates(files, order[..n])
      + CandidateAt(files, order[n])
  }

  function TotalLen(entries: seq<Entry>): nat {
    if entries == [] then 0 else TotalLen(entries[..|entries| - 1]) + entries[|entries| - 1].len
  }

  /** Bytes held by regular files. */
  ghost function ByteSize(files: Files): nat {
    TotalLen(Candidates(files, Listed(files.Keys)))
  }

  ghost function OldestFirst(files: Files): seq<Entry> {
    Sort(EntryLe, Candidates(files, Listed(files.Keys)))
  }

  // ----- the order of a directory listing does not matter ----------------------------------------

  lemma {:induction false} CandidatesConcat(files: Files, a: seq<string>, b: seq<string>)
    ensures Candidates(files, a + b) == Candidates(files, a) + Candidates(files, b)
  {
    if b == [] {
      assert a + b == a;
    } else {
      assert (a + b)[..|a + b| - 1] == a + b[..|b| - 1];
      CandidatesConcat(files, a, b[..|b| - 1]);
    }
  }

  lemma OneMore(files: Files, order: seq<string>, path: string)
    ensures Candidates(files, order + [path]) == Candidates(files, order) + CandidateAt(files, path)
  {
    assert (order + [path])[..|order|] == order;
  }

  lemma CandidatesPullOut(files: Files, b: seq<string>, i: nat)
    requires i < |b|
    ensures multiset(Candidates(files, b))
         == multiset(Candidates(files, b[..i] + b[i + 1..])) + multiset(Candidates(files, [b[i]]))
  {
    assert b == b[..i] + [b[i]] + b[i + 1..];
    CandidatesConcat(files, b[..i] + [b[i]], b[i + 1..]);
    CandidatesConcat(files, b[..i], [b[i]]);
    CandidatesConcat(files, b[..i], b[i + 1..]);
  }

  lemma {:induction false} ListingOrder(files: Files, a: seq<string>, b: seq<string>)
    requires multiset(a) == multiset(b)
    ensures multiset(Candidates(files, a)) == multiset(Candidates(files, b))
    decreases |a|
  {
    if a == [] {
      assert |multiset(b)| == |b|;
    } else {
      var n := |a| - 1;
      var i := DropLast(a, b);
      CandidatesPullOut(files, b, i);
      CandidatesPullOut(files, a, n);
      assert a[..n] + a[n + 1..] == a[..n];
      ListingOrder(files, a[..n], b[..i] + b[i + 1..]);
    }
  }

  lemma {:induction false} TotalConcat(a: seq<Entry>, b: seq<Entry>)
    ensures TotalLen(a + b) == TotalLen(a) + TotalLen(b)
  {
    if b == [] {
      assert a + b == a;
    } else {
      assert (a + b)[..|a + b| - 1] == a + b[..|b| - 1];
      TotalConcat(a, b[..|b| - 1]);
    }
  }

  lemma {:induction false} TotalOfRearranged(a: seq<Entry>, b: seq<Entry>)
    requires multiset(a) == multiset(b)
    ensures TotalLen(a) == TotalLen(b)
    decreases |a|
  {
    if a == [] {
      assert |multiset(b)| == |b|;
    } else {
      var i := DropLast(a, b);
      assert b == b[..i] + [b[i]] + b[i + 1..];
      TotalConcat(b[..i] + [b[i]], b[i + 1..]);
      TotalConcat(b[..i], [b[i]]);
      TotalConcat(b[..i], b[i + 1..]);
      assert [b[i]][..0] == [];
      TotalOfRearranged(a[..|a| - 1], b[..i] + b[i + 1..]);
    }
  }

  // ----- one pass --------------------------------------------------------------------------------

  datatype Outcome = Outcome(files: Files, total: nat, deleted: nat)

  /** The deleting loop, over entries in eviction order; a locked file cannot be removed. */
  function Pass(files: Files, locked: set<string>, entries: seq<Entry>, total: nat, target: nat): Outcome {
    if entries == [] || total <= target then Outcome(files, total, 0)
    else if entries[0].path in locked then Pass(files, locked, entries[1..], total, target)
    else
      var r := Pass(files - {entries[0].path}, locked, entries[1..], SatSub(total, entries[0].len), target);
      r.(deleted := r.deleted + 1)
  }

  ghost function EvictOutcome(files: Files, locked: set<string>, cap: nat): Outcome {
    var entries := OldestFirst(files);
    var total := Saturated(TotalLen(entries));
    if total <= cap then Outcome(files, total, 0) else Pass(files, locked, entries, total, Target(cap))
  }

  /** The entry directories: their files, and which of them another process holds. */
  class EntryDirs {
    var files: Files
    const locked: set<string>

    constructor (files0: Files, locked0: set<string>)
      ensures files == files0 && locked == locked0
    {
      files, locked := files0, locked0;
    }

    method RemoveFile(path: string) returns (ok: bool)
      modifies this
      ensures ok <==> path !in locked
      ensures files == if ok then old(files) - {path} else old(files)
    {
      ok := path !in locked;
      if ok {
        files := files - {path};
      }
    }
  }

  lemma AppendOne(entries: seq<Entry>, e: Entry)
    ensures Saturated(TotalLen(entries + [e])) == SatAdd(Saturated(TotalLen(entries)), e.len)
  {
    assert (entries + [e])[..|entries|] == entries;
  }

  /** Reads the directories in whatever order they list. */
  method Gather(dirs: EntryDirs) returns (entries: seq<Entry>, total: nat)
    ensures multiset(entries) == multiset(Candidates(dirs.files, Listed(dirs.files.Keys)))
    ensures total == Saturated(TotalLen(entries))
  {
    entries, total := [], 0;
    var files := dirs.files;
    var rest := files.Keys;
    ghost var order: seq<string> := [];
    while rest != {}
      invariant rest <= files.Keys && multiset(order) + multiset(rest) == multiset(files.Keys)
      invariant entries == Candidates(files, order) && total == Saturated(TotalLen(entries))
      decreases |rest|
    {
      var path :| path in rest;
      OneMore(files, order, path);
      BagOfSet(rest, path);
      rest, order := rest - {path}, order + [path];
      var meta := files[path];
      if !meta.Regular? {
        continue;
      }
      AppendOne(entries, EntryOf(path, meta));
      total := SatAdd(total, meta.len);
      entries := entries + [EntryOf(path, meta)];
    }
    ListingOrder(files, order, Listed(files.Keys));
  }

  method DeleteDownTo(dirs: EntryDirs, entries: seq<Entry>, total0: nat, target: nat) returns (deleted: nat)
    modifies dirs
    ensures dirs.files == Pass(old(dirs.files), dirs.locked, entries, total0, target).files
    ensures deleted == Pass(old(dirs.files), dirs.locked, entries, total0, target).deleted
  {
    var total: nat := total0;
    deleted := 0;
    ghost var whole := Pass(dirs.files, dirs.locked, entries, total, target);
    for i := 0 to |entries|
      invariant Pass(dirs.files, dirs.locked, entries[i..], total, target).files == whole.files
      invariant Pass(dirs.files, dirs.locked, entries[i..], total, target).deleted + deleted == whole.deleted
    {
      assert entries[i..][0] == entries[i] && entries[i..][1..] == entries[i + 1..];
      if total <= target {
        break;
      }
      var ok := dirs.RemoveFile(entries[i].path);
      if ok {
        total := SatSub(total, entries[i].len);
        deleted := deleted + 1;
      }
    }
  }

  lemma ListingSorts(files: Files, entries: seq<Entry>)
    requires multiset(entries) == multiset(Candidates(files, Listed(files.Keys)))
    ensures Sort(EntryLe, entries) == OldestFirst(files) && TotalLen(OldestFirst(files)) == TotalLen(entries)
  {
    EntryOrder();
    SortCanonical(EntryLe, entries, Candidates(files, Listed(files.Keys)));
    SortSorts(EntryLe, entries);
    TotalOfRearranged(entries, Sort(EntryLe, entries));
  }

  method EvictToCap(dirs: EntryDirs, cap: nat) returns (deleted: nat)
    modifies dirs
    ensures var o := EvictOutcome(old(dirs.files), dirs.locked, cap); dirs.files == o.files && deleted == o.deleted
  {
    var entries, total := Gather(dirs);
    ListingSorts(dirs.files, entries);
    entries := Sort(EntryLe, entries);
    ghost var o := EvictOutcome(dirs.files, dirs.locked, cap);
    if total <= cap {
      return 0;
    }
    assert o == Pass(dirs.files, dirs.locked, entries, total, Target(cap));
    deleted := DeleteDownTo(dirs, entries, total, cap / 4 * 3);
  }

  // ----- what a pass achieves --------------------------------------------------------------------

  lemma {:induction false} CandidatesWithout(files: Files, path: string, order: seq<string>)
    requires path !in order
    ensures Candidates(files - {path}, order) == Candidates(files, order)
  {
    if order == [] {
    } else {
      assert order[|order| - 1] in order && path !in order[..|order| - 1];
      CandidatesWithout(files, path, order[..|order| - 1]);
    }
  }

  /** Removing a file takes exactly its own length off the directory's size. */
  lemma RemovalShrinks(files: Files, path: string)
    requires path in files
    ensures ByteSize(files) == ByteSize(files - {path}) + TotalLen(CandidateAt(files, path))
  {
    var all, rest := Listed(files.Keys), Listed((files - {path}).Keys);
    assert (files - {path}).Keys == files.Keys - {path};
    assert multiset(all) == multiset(rest + [path]) by {
      assert files.Keys == (files.Keys - {path}) + {path};
    }
    ListingOrder(files, all, rest + [path]);
    TotalOfRearranged(Candidates(files, all), Candidates(files, rest + [path]));
    OneMore(files, rest, path);
    TotalConcat(Candidates(files, rest), CandidateAt(files, path));
    ListedMembers((files - {path}).Keys, path);
    CandidatesWithout(files, path, rest);
  }

  /** The entries are distinct regular files of the directory. */
  ghost predicate Describes(files: Files, entries: seq<Entry>) {
    && (forall e :: e in entries ==> e.path in files && files[e.path].Regular? && e == EntryOf(e.path, files[e.path]))
    && (forall i, j :: 0 <= i < j < |entries| ==> entries[i].path != entries[j].path)
  }

  /** How many entries the deleting loop tries. */
  function Attempts(locked: set<string>, entries: seq<Entry>, total: nat, target: nat): (k: nat)
    ensures k <= |entries|
  {
    if entries == [] || total <= target then 0
    else if entries[0].path in locked then 1 + Attempts(locked, entries[1..], total, target)
    else 1 + Attempts(locked, entries[1..], SatSub(total, entries[0].len), target)
  }

  /** The bytes and the paths that trying `entries` removes. */
  function RemovedLen(locked: set<string>, entries: seq<Entry>): nat {
    if entries == [] then 0
    else (if entries[0].path in locked then 0 else entries[0].len) + RemovedLen(locked, entries[1..])
  }

  function RemovedPaths(locked: set<string>, entries: seq<Entry>): set<string> {
    if entries == [] then {}
    else (if entries[0].path in locked then {} else {entries[0].path}) + RemovedPaths(locked, entries[1..])
  }

  lemma TailDescribes(files: Files, entries: seq<Entry>, locked: set<string>)
    requires Describes(files, entries) && entries != []
    ensures Describes(if entries[0].path in locked then files else files - {entries[0].path}, entries[1..])
  {
  }

  function Paths(entries: seq<Entry>): set<string> {
    if entries == [] then {} else {entries[0].path} + Paths(entries[1..])
  }

  ghost predicate DistinctPaths(entries: seq<Entry>) {
    entries == [] || (entries[0].path !in Paths(entries[1..]) && DistinctPaths(entries[1..]))
  }

  lemma {:induction false} PathsAreListed(entries: seq<Entry>, p: string)
    requires p in Paths(entries)
    ensures exists i :: 0 <= i < |entries| && entries[i].path == p
  {
    if entries[0].path == p {
    } else {
      PathsAreListed(entries[1..], p);
      var i :| 0 <= i < |entries[1..]| && entries[1..][i].path == p;
      assert entries[i + 1].path == p;
    }
  }

  lemma {:induction false} DescribedAreDistinct(entries: seq<Entry>)
    requires forall i, j :: 0 <= i < j < |entries| ==> entries[i].path != entries[j].path
    ensures DistinctPaths(entries)
  {
    if entries == [] {
    } else {
      DescribedAreDistinct(entries[1..]);
      if entries[0].path in Paths(entries[1..]) {
        PathsAreListed(entries[1..], entries[0].path);
        assert false;
      }
    }
  }

  lemma {:induction false} RemovedAreListed(locked: set<string>, entries: seq<Entry>, k: nat)
    requires k <= |entries|
    ensures RemovedPaths(locked, entries[..k]) <= Paths(entries)
  {
    if k == 0 {
    } else {
      RemovedPrefix(locked, entries, k);
      RemovedAreListed(locked, entries[1..], k - 1);
    }
  }

  lemma RemovedPrefix(locked: set<string>, entries: seq<Entry>, k: nat)
    requires 1 <= k <= |entries|
    ensures RemovedPaths(locked, entries[..k])
         == (if entries[0].path in locked then {} else {entries[0].path}) + RemovedPaths(locked, entries[1..][..k - 1])
  {
    assert entries[..k][0] == entries[0] && entries[..k][1..] == entries[1..][..k - 1];
  }

  lemma RemoveOneMore(files: Files, p: string, others: set<string>)
    requires p !in others
    ensures (files - {p}) - others == files - ({p} + others) && |{p} + others| == 1 + |others|
  {
  }

  /** What a prefix removes, and what its rest removes after its first file. */
  lemma RemovedUnfolds(files: Files, locked: set<string>, entries: seq<Entry>, k: nat)
    requires k < |entries| && entries[0].path !in Paths(entries[1..])
    ensures var gone, all := RemovedPaths(locked, entries[1..][..k]), RemovedPaths(locked, entries[..k + 1]);
      if entries[0].path in locked then all == gone
      else files - {entries[0].path} - gone == files - all && |all| == 1 + |gone|
  {
    hide RemovedPaths;
    RemovedPrefix(locked, entries, k + 1);
    RemovedAreListed(locked, entries[1..], k);
    if entries[0].path !in locked {
      RemoveOneMore(files, entries[0].path, RemovedPaths(locked, entries[1..][..k]));
    }
  }

  /** The first file tried, and the pass over the rest. */
  lemma PassUnfolds(files: Files, locked: set<string>, entries: seq<Entry>, total: nat, target: nat)
    requires entries != [] && total > target
    ensures var e, rest := entries[0], entries[1..];
      var left := if e.path in locked then total else SatSub(total, e.len);
      var kept := if e.path in locked then files else files - {e.path};
      var o, r := Pass(files, locked, entries, total, target), Pass(kept, locked, rest, left, target);
      && Attempts(locked, entries, total, target) == Attempts(locked, rest, left, target) + 1
      && o.files == r.files && o.deleted == r.deleted + (if e.path in locked then 0 else 1)
      && (DistinctPaths(entries) ==> e.path !in Paths(rest) && DistinctPaths(rest))
  {
  }

  lemma {:induction false} PassRemovesPrefix(
      files: Files, locked: set<string>, entries: seq<Entry>, total: nat, target: nat)
    requires DistinctPaths(entries)
    ensures var k, o := Attempts(locked, entries, total, target), Pass(files, locked, entries, total, target);
      var removed := RemovedPaths(locked, entries[..k]);
      o.files == files - removed && o.deleted == |removed|
  {
    if entries == [] || total <= target {
      assert entries[..0] == [] && files - {} == files;
    } else {
      var e, rest := entries[0], entries[1..];
      var left := if e.path in locked then total else SatSub(total, e.len);
      var kept := if e.path in locked then files else files - {e.path};
      PassUnfolds(files, locked, entries, total, target);
      hide Pass, Attempts, RemovedPaths, DistinctPaths;
      PassRemovesPrefix(kept, locked, rest, left, target);
      RemovedUnfolds(files, locked, entries, Attempts(locked, rest, left, target));
    }
  }

  /** The running total stays the size of what is left. */
  lemma {:induction false} PassKeepsTotal(files: Files, locked: set<string>, entries: seq<Entry>, target: nat)
    requires Describes(files, entries)
    ensures var o := Pass(files, locked, entries, ByteSize(files), target); o.total == ByteSize(o.files)
    decreases entries
  {
    if entries == [] || ByteSize(files) <= target {
    } else {
      var e := entries[0];
      TailDescribes(files, entries, locked);
      if e.path in locked {
        PassKeepsTotal(files, locked, entries[1..], target);
      } else {
        RemovalShrinks(files, e.path);
        assert e in entries && [e][..0] == [];
        assert TotalLen(CandidateAt(files, e.path)) == e.len;
        PassKeepsTotal(files - {e.path}, locked, entries[1..], target);
      }
    }
  }

  lemma TotalHead(entries: seq<Entry>)
    requires entries != []
    ensures TotalLen(entries) == entries[0].len + TotalLen(entries[1..])
  {
    assert entries == [entries[0]] + entries[1..] && [entries[0]][..0] == [];
    TotalConcat([entries[0]], entries[1..]);
  }

  lemma RemovedLenHead(locked: set<string>, entries: seq<Entry>, j: nat)
    requires 0 < j <= |entries|
    ensures RemovedLen(locked, entries[..j])
         == (if entries[0].path in locked then 0 else entries[0].len) + RemovedLen(locked, entries[1..][..j - 1])
  {
    assert entries[..j][0] == entries[0] && entries[..j][1..] == entries[1..][..j - 1];
  }

  /** The prefix tried is the shortest that brings the total down to the target, or else everything. */
  lemma {:induction false} AttemptsAreShortest(
      locked: set<string>, entries: seq<Entry>, total: nat, target: nat, j: nat)
    requires TotalLen(entries) <= total && j <= |entries|
    ensures RemovedLen(locked, entries[..j]) <= total
    ensures var k := Attempts(locked, entries, total, target);
      && (j < k ==> total - RemovedLen(locked, entries[..j]) > target)
      && (j == k < |entries| ==> total - RemovedLen(locked, entries[..j]) <= target)
  {
    if entries == [] || j == 0 {
    } else {
      var e, rest := entries[0], entries[1..];
      TotalHead(entries);
      RemovedLenHead(locked, entries, j);
      hide TotalLen, RemovedLen;
      AttemptsAreShortest(locked, rest, if e.path in locked then total else total - e.len, target, j - 1);
    }
  }

  lemma OldestFirstDescribes(files: Files)
    ensures Describes(files, OldestFirst(files)) && TotalLen(OldestFirst(files)) == ByteSize(files)
    ensures SortedBy(EntryLe, OldestFirst(files))
  {
    var order := Listed(files.Keys);
    ListedDistinct(files.Keys);
    CandidatesDescribe(files, order);
    EntryOrder();
    var c, s := Candidates(files, order), OldestFirst(files);
    SortSorts(EntryLe, c);
    TotalOfRearranged(s, c);
    forall e
      ensures e in s <==> e in c
    {
      assert e in multiset(s) <==> e in multiset(c);
    }
    forall i, j | 0 <= i < j < |s|
      ensures s[i].path != s[j].path
    {
      if s[i].path == s[j].path {
        assert s[i] in s && s[j] in s;
        assert s[i] == s[j];
        TwiceInBag(s, i, j);
        OnceInBag(files, c, s[i]);
        assert false;
      }
    }
  }

  lemma {:induction false} CandidatesDescribe(files: Files, order: seq<string>)
    requires forall i, j :: 0 <= i < j < |order| ==> order[i] != order[j]
    ensures Describes(files, Candidates(files, order))
    ensures forall e :: e in Candidates(files, order) ==> e.path in order
  {
    if order == [] {
    } else {
      hide Describes, Candidates, CandidateAt;
      var n := |order| - 1;
      var front, path := order[..n], order[n];
      assert order == front + [path] && path !in front;
      CandidatesDescribe(files, front);
      OneMore(files, front, path);
      CandidateIsThere(files, path);
      DescribesOneMore(files, Candidates(files, front), path);
    }
  }

  lemma CandidateIsThere(files: Files, path: string)
    ensures forall e :: e in CandidateAt(files, path) ==> e.path == path
  {
  }

  lemma DescribesOneMore(files: Files, entries: seq<Entry>, path: string)
    requires Describes(files, entries) && forall e :: e in entries ==> e.path != path
    ensures Describes(files, entries + CandidateAt(files, path))
  {
  }

  lemma {:induction false} OnceInBag(files: Files, entries: seq<Entry>, e: Entry)
    requires Describes(files, entries)
    ensures multiset(entries)[e] <= 1
  {
    if entries == [] {
    } else {
      var n := |entries| - 1;
      assert entries == entries[..n] + [entries[n]];
      OnceInBag(files, entries[..n], e);
      assert entries[n] !in entries[..n];
    }
  }

  /** The pass tried exactly the first `k` entries, the fewest that reach the target, or all of them. */
  ghost predicate TriedFewest(files: Files, locked: set<string>, es: seq<Entry>, target: nat, o: Outcome, k: nat) {
    && k <= |es|
    && o.files == files - RemovedPaths(locked, es[..k]) && o.deleted == |RemovedPaths(locked, es[..k])|
    && (forall j {:trigger RemovedLen(locked, es[..j])} :: 0 <= j < k ==>
          ByteSize(files) - RemovedLen(locked, es[..j]) > target)
    && (k < |es| ==> ByteSize(o.files) <= target)
  }

  lemma PassTriesFewest(files: Files, locked: set<string>, es: seq<Entry>, target: nat)
    requires Describes(files, es) && TotalLen(es) == ByteSize(files)
    ensures var total := ByteSize(files);
      TriedFewest(
        files, locked, es, target, Pass(files, locked, es, total, target), Attempts(locked, es, total, target))
  {
    var total := ByteSize(files);
    PassKeepsTotal(files, locked, es, target);
    DescribedAreDistinct(es);
    PassRemovesPrefix(files, locked, es, total, target);
    var k := Attempts(locked, es, total, target);
    forall j | 0 <= j < k
      ensures total - RemovedLen(locked, es[..j]) > target
    {
      AttemptsAreShortest(locked, es, total, target, j);
    }
    if k < |es| {
      StoppedEarly(files, locked, es, total, target);
    }
  }

  /** When the sizes do not saturate: under the cap nothing goes; over it, the shortest oldest-first prefix
      that reaches the target is tried, exactly its unlocked files go, and the count is theirs. */
  lemma EvictionIsShortestPrefix(files: Files, locked: set<string>, cap: nat)
    requires ByteSize(files) <= U64_MAX
    ensures var es, o := OldestFirst(files), EvictOutcome(files, locked, cap);
      && SortedBy(EntryLe, es) && Describes(files, es)
      && o.total == ByteSize(o.files)
      && (ByteSize(files) <= cap ==> o.files == files && o.deleted == 0)
      && (ByteSize(files) > cap ==> exists k :: TriedFewest(files, locked, es, Target(cap), o, k))
  {
    OldestFirstDescribes(files);
    if ByteSize(files) > cap {
      PassKeepsTotal(files, locked, OldestFirst(files), Target(cap));
      PassTriesFewest(files, locked, OldestFirst(files), Target(cap));
    }
  }

  lemma WithinCapNothingGoes(files: Files, locked: set<string>, cap: nat)
    requires ByteSize(files) <= cap
    ensures var o := EvictOutcome(files, locked, cap); o.files == files && o.deleted == 0
  {
    hide OldestFirst, ByteSize, Pass;
    OldestFirstDescribes(files);
  }

  /** A loop that stops before the last entry has reached the target. */
  lemma {:induction false} StoppedEarly(files: Files, locked: set<string>, entries: seq<Entry>, total: nat, target: nat)
    requires Attempts(locked, entries, total, target) < |entries|
    ensures Pass(files, locked, entries, total, target).total <= target
  {
    if total <= target {
    } else if entries[0].path in locked {
      StoppedEarly(files, locked, entries[1..], total, target);
    } else {
      StoppedEarly(files - {entries[0].path}, locked, entries[1..], SatSub(total, entries[0].len), target);
    }
  }

  lemma {:induction false} RemovedHolds(locked: set<string>, entries: seq<Entry>, e: Entry)
    requires e in entries && e.path !in locked
    ensures e.path in RemovedPaths(locked, entries)
  {
    if e == entries[0] {
    } else {
      assert e in entries[1..];
      RemovedHolds(locked, entries[1..], e);
    }
  }

  lemma {:induction false} CandidatesHold(files: Files, order: seq<string>, path: string)
    requires path in order && path in files && files[path].Regular?
    ensures EntryOf(path, files[path]) in Candidates(files, order)
  {
    var n := |order| - 1;
    if path == order[n] {
    } else {
      assert path in order[..n];
      CandidatesHold(files, order[..n], path);
    }
  }

  lemma OldestFirstHolds(files: Files, path: string)
    requires path in files && files[path].Regular?
    ensures EntryOf(path, files[path]) in OldestFirst(files)
  {
    EntryOrder();
    ListedMembers(files.Keys, path);
    CandidatesHold(files, Listed(files.Keys), path);
    SortMembers(EntryLe, Candidates(files, Listed(files.Keys)), EntryOf(path, files[path]));
  }

  /** A loop that tried everything leaves only locked files. */
  lemma OnlyLockedLeft(files: Files, locked: set<string>, left: Files, e: Entry)
    requires left == files - RemovedPaths(locked, OldestFirst(files)) && e in OldestFirst(left)
    ensures e.path in locked
  {
    OldestFirstDescribes(left);
    assert e.path in left && files[e.path] == left[e.path];
    OldestFirstHolds(files, e.path);
    if e.path !in locked { RemovedHolds(locked, OldestFirst(files), e); }
  }

  lemma {:induction false} NothingToDelete(
      files: Files, locked: set<string>, entries: seq<Entry>, total: nat, target: nat)
    requires forall e :: e in entries ==> e.path in locked
    ensures Pass(files, locked, entries, total, target) == Outcome(files, total, 0)
  {
    if entries == [] || total <= target {
    } else {
      assert entries[0] in entries;
      NothingToDelete(files, locked, entries[1..], total, target);
    }
  }

  lemma {:induction false} TotalShrinks(files: Files, locked: set<string>, entries: seq<Entry>, total: nat, target: nat)
    ensures Pass(files, locked, entries, total, target).total <= total
  {
    if entries == [] || total <= target {
    } else if entries[0].path in locked {
      TotalShrinks(files, locked, entries[1..], total, target);
    } else {
      TotalShrinks(files - {entries[0].path}, locked, entries[1..], SatSub(total, entries[0].len), target);
    }
  }

  /** A second pass under the same cap deletes nothing: the first reached its target, or left only locked files. */
  lemma SecondPassIsIdle(files: Files, locked: set<string>, cap: nat)
    requires ByteSize(files) <= U64_MAX
    ensures var o := EvictOutcome(files, locked, cap);
      EvictOutcome(o.files, locked, cap) == Outcome(o.files, o.total, 0)
  {
    hide Pass, OldestFirst, ByteSize, TotalLen, Describes, TriedFewest;
    var es, o := OldestFirst(files), EvictOutcome(files, locked, cap);
    EvictionIsShortestPrefix(files, locked, cap);
    OldestFirstDescribes(files);
    OldestFirstDescribes(o.files);
    TotalShrinks(files, locked, es, ByteSize(files), Target(cap));
    assert TotalLen(OldestFirst(o.files)) == o.total <= U64_MAX;
    if ByteSize(files) <= cap || o.total <= cap {
    } else {
      var k :| TriedFewest(files, locked, es, Target(cap), o, k);
      RestIsLocked(files, locked, es, Target(cap), o, k);
      NothingToDelete(o.files, locked, OldestFirst(o.files), o.total, Target(cap));
    }
  }

  lemma RestIsLocked(files: Files, locked: set<string>, es: seq<Entry>, target: nat, o: Outcome, k: nat)
    requires es == OldestFirst(files) && TriedFewest(files, locked, es, target, o, k) && ByteSize(o.files) > target
    ensures forall e :: e in OldestFirst(o.files) ==> e.path in locked
  {
    hide OldestFirst, ByteSize;
    assert es[..|es|] == es;
    forall e | e in OldestFirst(o.files) ensures e.path in locked {
      OnlyLockedLeft(files, locked, o.files, e);
    }
  }
}
