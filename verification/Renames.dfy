/** What renaming does to the text a fingerprint hashes: a crate's directory among other crates, and a source file
    among the files of its crate. */
module Renames {
  import opened Options
  import opened Ordering
  import opened Sequences
  import opened SourceFingerprint

  // ----- crates ------------------------------------------------------------------------------------

  lemma Slices<T>(s: seq<T>, i: nat, j: nat, x: T)
    requires i <= j <= |s|
    ensures s[..i] + ([x] + s[i..j]) + s[j..] == s[..i] + [x] + s[i..]
    ensures s[..i] + (s[i..j] + [x]) + s[j..] == s[..j] + [x] + s[j..]
  {
  }

  /** One crate put before the crates from `i` to `j` under one hashing, and another after them under the other. */
  lemma CratesCompare(g: string -> bv64, h: string -> bv64, s: seq<string>, i: nat, j: nat, a: string, b: string)
    requires i <= j <= |s| && SameHashes(g, h, s)
    ensures var m, x, y := Contributions(g, s[i..j]), Contribution(a, g(a)), Contribution(b, h(b));
      Contributions(g, s[..i] + [a] + s[i..]) == Contributions(h, s[..j] + [b] + s[j..]) <==> x + m == m + y
  {
    hide Contributions, Contribution;
    Slices(s, i, j, a);
    Slices(s, i, j, b);
    MovedPast(h, g, s[..i], s[i..j], b, a, s[j..]);
    SameHashesSameText(g, h, s[i..j]);
  }

  /** Renaming the directory of one crate among any others, whatever happens to its order, last component and hash:
      the hashed text stays exactly when the others between its two places, read after what it added before or
      before what it adds now, read the same. */
  lemma CrateRenamed(v: World, w: World, others: set<string>, a: string, b: string)
    requires a !in others && b !in others
    requires forall c :: c in others ==> CrateHash(v.crate(c)) == CrateHash(w.crate(c))
    ensures var s := Ascending(others);
      var i, j := Position(StringLe, a, s), Position(StringLe, b, s);
      var x, y := Contribution(a, CrateHash(v.crate(a))), Contribution(b, CrateHash(w.crate(b)));
      FingerprintText(v, others + {a}) == FingerprintText(w, others + {b}) <==>
        if i <= j then x + Contributions(HashOf(v), s[i..j]) == Contributions(HashOf(v), s[i..j]) + y
        else Contributions(HashOf(v), s[j..i]) + x == y + Contributions(HashOf(v), s[j..i])
  {
    hide CrateHash, Contributions, Contribution, Ascending, Position;
    var s, g, h := Ascending(others), HashOf(v), HashOf(w);
    var i, j := Position(StringLe, a, s), Position(StringLe, b, s);
    forall k | 0 <= k < |s| ensures g(s[k]) == h(s[k]) {
      AscendingMembers(others, s[k]);
    }
    assert SameHashes(g, h, s);
    AscendingWith(others, a);
    AscendingWith(others, b);
    if i <= j {
      CratesCompare(g, h, s, i, j, a, b);
    } else {
      CratesCompare(h, g, s, j, i, b, a);
      SameHashesSameText(g, h, s[j..i]);
    }
  }

  /** A rename that keeps the place among the others shows exactly when it changes the last component or the hash. */
  lemma CrateRenamedInPlace(v: World, w: World, others: set<string>, a: string, b: string)
    requires a !in others && b !in others
    requires forall c :: c in others ==> CrateHash(v.crate(c)) == CrateHash(w.crate(c))
    requires Position(StringLe, a, Ascending(others)) == Position(StringLe, b, Ascending(others))
    ensures FingerprintText(v, others + {a}) == FingerprintText(w, others + {b}) <==>
      LastComponent(a) == LastComponent(b) && CrateHash(v.crate(a)) == CrateHash(w.crate(b))
  {
    hide CrateHash, Contributions, Ascending, LastComponent, Position;
    var s, g, h := Ascending(others), HashOf(v), HashOf(w);
    var i := Position(StringLe, a, s);
    forall k | 0 <= k < |s| ensures g(s[k]) == h(s[k]) {
      AscendingMembers(others, s[k]);
    }
    AscendingWith(others, a);
    AscendingWith(others, b);
    MovedInPlace(g, h, s[..i], a, b, s[i..]);
  }

  // ----- files -------------------------------------------------------------------------------------

  lemma {:induction false} FilesTextConcat(a: seq<SourceFile>, b: seq<SourceFile>)
    ensures FilesText(a + b) == FilesText(a) + FilesText(b)
  {
    hide Piece;
    if b == [] {
      assert a + b == a;
    } else {
      var n := |b| - 1;
      assert (a + b)[..|a + b| - 1] == a + b[..n];
      FilesTextConcat(a, b[..n]);
      Regroup(FilesText(a), FilesText(b[..n]), Piece(b[n]));
    }
  }

  lemma FilesTextOne(f: SourceFile)
    ensures FilesText([f]) == Piece(f)
  {
    hide Piece;
    assert [f][..0] == [];
  }

  /** The text of files around a place where `f` stands before or after the files `past`. */
  lemma FilesTextAround(before: seq<SourceFile>, past: seq<SourceFile>, f: SourceFile, after: seq<SourceFile>)
    ensures FilesText(before + ([f] + past) + after)
         == FilesText(before) + (Piece(f) + FilesText(past)) + FilesText(after)
    ensures FilesText(before + (past + [f]) + after)
         == FilesText(before) + (FilesText(past) + Piece(f)) + FilesText(after)
  {
    hide FilesText, Piece;
    FilesTextOne(f);
    FilesTextConcat([f], past);
    FilesTextConcat(past, [f]);
    FilesTextConcat(before, [f] + past);
    FilesTextConcat(before, past + [f]);
    FilesTextConcat(before + ([f] + past), after);
    FilesTextConcat(before + (past + [f]), after);
  }

  lemma FilesCompare(s: seq<SourceFile>, i: nat, j: nat, f: SourceFile, g: SourceFile)
    requires i <= j <= |s|
    ensures FilesText(s[..i] + [f] + s[i..]) == FilesText(s[..j] + [g] + s[j..]) <==>
      Piece(f) + FilesText(s[i..j]) == FilesText(s[i..j]) + Piece(g)
  {
    hide FilesText, Piece;
    Slices(s, i, j, f);
    Slices(s, i, j, g);
    FilesTextAround(s[..i], s[i..j], f, s[j..]);
    FilesTextAround(s[..i], s[i..j], g, s[j..]);
    MiddlesAgree(FilesText(s[..i]), Piece(f) + FilesText(s[i..j]), FilesText(s[i..j]) + Piece(g), FilesText(s[j..]));
  }

  /** Replacing one file by another, the rest of the crate as it was and however the directories list either: the
      hashed text stays exactly when the files between the two places, read after the old piece or before the new
      one, read the same. */
  lemma FileReplaced(
      was: seq<SourceFile>, now: seq<SourceFile>, others: seq<SourceFile>, f: SourceFile, g: SourceFile)
    requires multiset(was) == multiset(others) + multiset{f} && OncePerPath(was)
    requires multiset(now) == multiset(others) + multiset{g} && OncePerPath(now)
    ensures var s := Sort(RelLe, others);
      var i, j := Position(RelLe, f, s), Position(RelLe, g, s);
      FilesText(Sort(RelLe, was)) == FilesText(Sort(RelLe, now)) <==>
        if i <= j then Piece(f) + FilesText(s[i..j]) == FilesText(s[i..j]) + Piece(g)
        else FilesText(s[j..i]) + Piece(f) == Piece(g) + FilesText(s[j..i])
  {
    var s := Sort(RelLe, others);
    var i, j := Position(RelLe, f, s), Position(RelLe, g, s);
    SortedWith(was, others, f);
    SortedWith(now, others, g);
    hide FilesText, Piece, Sort, Position;
    if i <= j {
      FilesCompare(s, i, j, f, g);
    } else {
      FilesCompare(s, j, i, g, f);
    }
  }

  lemma SortedWith(listed: seq<SourceFile>, others: seq<SourceFile>, f: SourceFile)
    requires multiset(listed) == multiset(others) + multiset{f} && OncePerPath(listed)
    ensures var s := Sort(RelLe, others);
      var i := Position(RelLe, f, s);
      Sort(RelLe, listed) == s[..i] + [f] + s[i..]
  {
    var all := [f] + others;
    assert all[0] == f && all[1..] == others;
    ListingOrderDoesNotMatter(listed, all);
    InsertAtPosition(RelLe, f, Sort(RelLe, others));
  }

  lemma FileReplacedInPlace(s: seq<SourceFile>, i: nat, f: SourceFile, g: SourceFile)
    requires i <= |s|
    ensures FilesText(s[..i] + [f] + s[i..]) == FilesText(s[..i] + [g] + s[i..]) <==> Piece(f) == Piece(g)
  {
    assert FilesText(s[i..i]) == [];
    hide Piece, FilesText;
    FilesCompare(s, i, i, f, g);
    assert Piece(f) + [] == Piece(f) && [] + Piece(g) == Piece(g);
  }

  lemma PieceTells(f: SourceFile, g: SourceFile)
    requires f.content == g.content
    ensures Piece(f) == Piece(g) <==> f.rel == g.rel
  {
    hide FileBytes;
    SuffixesAgree(f.rel, FileBytes(f.content), g.rel, FileBytes(g.content));
  }

  /** A rename that keeps the file's place among the others, and its content, always shows. */
  lemma FileRenamedInPlace(
      was: seq<SourceFile>, now: seq<SourceFile>, others: seq<SourceFile>, f: SourceFile, g: SourceFile)
    requires multiset(was) == multiset(others) + multiset{f} && OncePerPath(was)
    requires multiset(now) == multiset(others) + multiset{g} && OncePerPath(now)
    requires f.content == g.content
    requires Position(RelLe, f, Sort(RelLe, others)) == Position(RelLe, g, Sort(RelLe, others))
    ensures FilesText(Sort(RelLe, was)) == FilesText(Sort(RelLe, now)) <==> f.rel == g.rel
  {
    hide FilesText, Piece, Sort, Position, OncePerPath, RelLe;
    var s := Sort(RelLe, others);
    var i := Position(RelLe, f, s);
    SortedWith(was, others, f);
    SortedWith(now, others, g);
    FileReplacedInPlace(s, i, f, g);
    PieceTells(f, g);
  }

  /** One that changes its place need not: `c.rsb.rs` renamed to `b.rsc.rs` beside `b.rsc.rsb.rs`, all empty. */
  lemma RenameUnseen(m: SourceFile, f: SourceFile, g: SourceFile)
    requires m.rel == "b.rsc.rsb.rs" && f.rel == "c.rsb.rs" && g.rel == "b.rsc.rs"
    requires m.content == f.content == g.content == Some("")
    ensures Sort(RelLe, [f, m]) == [m, f] && Sort(RelLe, [g, m]) == [g, m] && FilesText([m, f]) == FilesText([g, m])
  {
    hide Sort, FilesText, StringLe, FileBytes;
    PlacesOfThree();
    SortTwo(f, m);
    SortTwo(g, m);
    TextOfTwo(m, f);
    TextOfTwo(g, m);
    EmptyPiece(m);
    EmptyPiece(f);
    EmptyPiece(g);
  }

  lemma PlacesOfThree()
    ensures StringLe("b.rsc.rs", "b.rsc.rsb.rs") && !StringLe("c.rsb.rs", "b.rsc.rsb.rs")
  {
    PrefixIsLess("b.rsc.rs", "b.rs");
    assert "b.rsc.rs" + "b.rs" == "b.rsc.rsb.rs";
  }

  lemma EmptyPiece(f: SourceFile)
    requires f.content == Some("")
    ensures Piece(f) == f.rel
  {
    assert FileBytes(f.content) == "";
  }

  lemma SortTwo(a: SourceFile, b: SourceFile)
    ensures Sort(RelLe, [a, b]) == if RelLe(a, b) then [a, b] else [b, a]
  {
    hide RelLe;
    assert [a, b][1..] == [b] && [b][1..] == [];
    assert Sort(RelLe, []) == [];
    assert Sort(RelLe, [b]) == Insert(RelLe, b, []);
    assert Insert(RelLe, a, [b]) == if RelLe(a, b) then [a, b] else [b] + Insert(RelLe, a, []);
  }

  lemma TextOfTwo(a: SourceFile, b: SourceFile)
    ensures FilesText([a, b]) == Piece(a) + Piece(b)
  {
    hide Piece;
    FilesTextConcat([a], [b]);
    FilesTextOne(a);
    FilesTextOne(b);
    assert [a] + [b] == [a, b];
  }

  lemma {:induction false} PrefixIsLess(a: string, b: string)
    ensures StringLe(a, a + b)
  {
    if a == [] {
    } else {
      assert (a + b)[1..] == a[1..] + b;
      PrefixIsLess(a[1..], b);
    }
  }
}
