/** What eviction takes, by age and by size, in numbers. */
module EvictOrder {
  import opened Evict
  import opened Options
  import opened Ordering

  /** When a file was written, the epoch if the file system does not say. */
  function Written(meta: Meta): int
    requires meta.Regular?
  {
    if meta.modified.Some? then meta.modified.value else 0
  }

  lemma {:induction false} RemovedFromPrefix(locked: set<string>, entries: seq<Entry>, path: string) returns (i: nat)
    requires path in RemovedPaths(locked, entries)
    ensures i < |entries| && entries[i].path == path && path !in locked
  {
    if entries[0].path == path && path !in locked {
      i := 0;
    } else {
      var j := RemovedFromPrefix(locked, entries[1..], path);
      i := j + 1;
    }
  }

  lemma {:induction false} RemovedOneMore(locked: set<string>, s: seq<Entry>, e: Entry)
    ensures RemovedLen(locked, s + [e]) == RemovedLen(locked, s) + if e.path in locked then 0 else e.len
    ensures RemovedPaths(locked, s + [e]) == RemovedPaths(locked, s) + if e.path in locked then {} else {e.path}
  {
    if s == [] {
      assert s + [e] == [e] && [e][1..] == [];
    } else {
      assert (s + [e])[1..] == s[1..] + [e];
      RemovedOneMore(locked, s[1..], e);
    }
  }

  lemma {:induction false} LastRemoved(locked: set<string>, es: seq<Entry>, k: nat) returns (i: nat)
    requires k <= |es| && RemovedPaths(locked, es[..k]) != {}
    ensures i < k && es[i].path !in locked && RemovedLen(locked, es[..k]) == RemovedLen(locked, es[..i]) + es[i].len
  {
    assert k > 0;
    assert es[..k] == es[..k - 1] + [es[k - 1]];
    RemovedOneMore(locked, es[..k - 1], es[k - 1]);
    if es[k - 1].path !in locked {
      i := k - 1;
    } else {
      i := LastRemoved(locked, es, k - 1);
    }
  }

  lemma {:induction false} PassTotalIs(
      files: Files, locked: set<string>, entries: seq<Entry>, total: nat, target: nat)
    requires TotalLen(entries) <= total
    ensures var k := Attempts(locked, entries, total, target);
      Pass(files, locked, entries, total, target).total + RemovedLen(locked, entries[..k]) == total
  {
    hide TotalLen;
    if entries == [] || total <= target {
      assert entries[..0] == [];
    } else {
      var e, rest := entries[0], entries[1..];
      TotalHead(entries);
      PassTotalIs(if e.path in locked then files else files - {e.path}, locked, rest,
                  if e.path in locked then total else total - e.len, target);
      RemovedLenHead(locked, entries, Attempts(locked, entries, total, target));
    }
  }

  /** What the files left come to. */
  lemma LeftSize(files: Files, locked: set<string>, cap: nat) returns (k: nat)
    requires cap < ByteSize(files) <= U64_MAX
    ensures var es, o := OldestFirst(files), EvictOutcome(files, locked, cap);
      && TriedFewest(files, locked, es, cap / 4 * 3, o, k)
      && k <= |es| && o.files == files - RemovedPaths(locked, es[..k])
      && ByteSize(o.files) + RemovedLen(locked, es[..k]) == ByteSize(files)
  {
    var es := OldestFirst(files);
    OldestFirstDescribes(files);
    k := Attempts(locked, es, ByteSize(files), Target(cap));
    PassTotalIs(files, locked, es, ByteSize(files), Target(cap));
    PassKeepsTotal(files, locked, es, Target(cap));
    PassTriesFewest(files, locked, es, Target(cap));
  }

  lemma EarlierIsOlder(es: seq<Entry>, i: nat, j: nat)
    requires SortedBy(EntryLe, es) && i <= j < |es|
    ensures i == j || GoesFirst(es[i].written, es[i].len, es[i].path, es[j].written, es[j].len, es[j].path)
       || es[i] == es[j]
  {
    if i < j {
      assert EntryLe(es[i], es[j]);
      StringLeIff(es[i].path, es[j].path);
    }
  }

  /** Written earlier, or at the same time and shorter, or that, too, and before by characters of its path. */
  ghost predicate GoesFirst(t: int, m: nat, p: string, u: int, n: nat, q: string) {
    t < u || (t == u && (m < n || (m == n && Precedes(p, q))))
  }

  /** What a pass left of the files, when it tried the first `k` entries: nothing changed, the entries tried that no one
      holds gone, and so each other entry that no one holds later in the order. */
  lemma LeftIsLater(
      files: Files, locked: set<string>, es: seq<Entry>, left: Files, k: nat, path: string) returns (j: nat)
    requires k <= |es| && left == files - RemovedPaths(locked, es[..k]) && path in left && path !in locked
    requires left[path].Regular? && es == OldestFirst(files)
    ensures path in files && files[path] == left[path]
    ensures k <= j < |es| && es[j] == EntryOf(path, left[path])
  {
    OldestFirstHolds(files, path);
    hide OldestFirst, RemovedPaths;
    j :| 0 <= j < |es| && es[j] == EntryOf(path, files[path]);
    if j < k {
      assert es[..k][j] == es[j];
      RemovedHolds(locked, es[..k], es[j]);
    }
  }

  /** And each file that is gone stands among the entries tried. */
  lemma GoneIsTried(
      files: Files, locked: set<string>, es: seq<Entry>, left: Files, k: nat, path: string) returns (i: nat)
    requires k <= |es| && left == files - RemovedPaths(locked, es[..k]) && path in files && path !in left
    requires es == OldestFirst(files)
    ensures i < k && files[path].Regular? && es[i] == EntryOf(path, files[path])
  {
    OldestFirstDescribes(files);
    hide OldestFirst, RemovedPaths, SortedBy;
    assert path in RemovedPaths(locked, es[..k]);
    i := RemovedFromPrefix(locked, es[..k], path);
    assert es[i] == es[..k][i] && es[i] in es;
  }

  /** Oldest first: each deleted file goes before each file that is left and that no one holds. */
  lemma NothingOlderIsLeft(files: Files, locked: set<string>, cap: nat, left: string, gone: string)
    requires ByteSize(files) <= U64_MAX
    requires var o := EvictOutcome(files, locked, cap).files;
      left in o && left !in locked && o[left].Regular? && gone in files && gone !in o
    ensures var o := EvictOutcome(files, locked, cap).files;
      && files[gone].Regular?
      && GoesFirst(Written(files[gone]), files[gone].len, gone, Written(o[left]), o[left].len, left)
  {
    hide EvictOutcome, OldestFirst, ByteSize, RemovedPaths, GoesFirst, Describes, TriedFewest, SortedBy;
    var es, o := OldestFirst(files), EvictOutcome(files, locked, cap);
    EvictionIsShortestPrefix(files, locked, cap);
    var k := LeftSize(files, locked, cap);
    var i := GoneIsTried(files, locked, es, o.files, k, gone);
    var j := LeftIsLater(files, locked, es, o.files, k, left);
    EarlierIsOlder(es, i, j);
  }

  /** Over the cap, what is left is at most three quarters of it, or everything left that is a file someone holds. */
  lemma ThreeQuartersAreLeft(files: Files, locked: set<string>, cap: nat)
    requires cap < ByteSize(files) <= U64_MAX
    ensures var o := EvictOutcome(files, locked, cap).files;
      || 4 * ByteSize(o) <= 3 * cap
      || forall path :: path in o && o[path].Regular? ==> path in locked
  {
    var es, o := OldestFirst(files), EvictOutcome(files, locked, cap);
    var k := LeftSize(files, locked, cap);
    hide EvictOutcome, OldestFirst, ByteSize, RemovedPaths;
    if k == |es| {
      forall path | path in o.files && o.files[path].Regular? ensures path in locked {
        if path !in locked { var j := LeftIsLater(files, locked, es, o.files, k, path); }
      }
    }
  }

  /** And no more goes than has to: without the last file deleted, more than three quarters, rounded down to a multiple
      of three, would be left. */
  lemma NoMoreThanNeeded(files: Files, locked: set<string>, cap: nat)
    requires cap < ByteSize(files) <= U64_MAX
    ensures var o := EvictOutcome(files, locked, cap);
      o.deleted > 0 ==> exists path ::
        && path in files && files[path].Regular? && path !in o.files
        && ByteSize(o.files) + files[path].len > cap / 4 * 3
  {
    var es, o := OldestFirst(files), EvictOutcome(files, locked, cap);
    OldestFirstDescribes(files);
    hide EvictOutcome, OldestFirst, ByteSize;
    if o.deleted > 0 {
      var k := LeftSize(files, locked, cap);
      var i := LastRemoved(locked, es, k);
      assert es[i] in es && es[..k][i] == es[i];
      RemovedHolds(locked, es[..k], es[i]);
    }
  }
}
