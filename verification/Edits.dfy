/** What changing the contents of a crate does to the text and the hash of its fingerprint. */
module Edits {
  import opened Digraph
  import opened Newlines
  import opened Options
  import opened Ordering
  import opened Renames
  import opened Sequences
  import opened SourceFingerprint

  // ----- the hash ----------------------------------------------------------------------------------

  lemma HalfBack(n: nat)
    requires n < 16
    ensures (n as bv4) as nat == n
  {
  }

  lemma HalfTells(m: nat, n: nat)
    requires m < 16 && n < 16 && Half(m) == Half(n)
    ensures m == n
  {
    HalfBack(m);
    HalfBack(n);
  }

  lemma HalvesTell(a: bv4, b: bv4, c: bv4, d: bv4)
    requires TwoHalves(a, b) == TwoHalves(c, d)
    ensures a == c && b == d
  {
  }

  lemma ByteIs(c: char)
    requires c as int < 256
    ensures Byte(c) == TwoHalves(Half(c as int / 16), Half(c as int % 16))
  {
    hide TwoHalves, Half;
    assert c as int % 256 == c as int;
  }

  lemma BytesTell(x: char, y: char)
    requires x as int < 256 && y as int < 256 && Byte(x) == Byte(y)
    ensures x == y
  {
    hide TwoHalves, Half, Byte;
    var m, n := x as int, y as int;
    ByteIs(x);
    ByteIs(y);
    HalvesTell(Half(m / 16), Half(m % 16), Half(n / 16), Half(n % 16));
    HalfTells(m / 16, n / 16);
    HalfTells(m % 16, n % 16);
  }

  /** The prime has an inverse in 64-bit arithmetic. */
  function Undone(h: bv64): bv64 {
    h * 0xce96_5057_aff6_957b
  }

  lemma Inverse(x: bv64)
    ensures (x * 0x0000_0100_0000_01b3) * 0xce96_5057_aff6_957b == x
  {
  }

  lemma PrimeUndone(x: bv64)
    ensures Undone(TimesPrime(x)) == x
  {
    Inverse(x);
    assert Undone(TimesPrime(x)) == Undone(x * 0x0000_0100_0000_01b3);
  }

  /** Multiplying by the prime loses nothing. */
  lemma PrimeTells(x: bv64, y: bv64)
    requires TimesPrime(x) == TimesPrime(y)
    ensures x == y
  {
    hide TimesPrime, Undone;
    PrimeUndone(x);
    PrimeUndone(y);
  }

  lemma MixedHashesTell(g: bv64, h: bv64, b: bv8)
    requires Mixed(g, b) == Mixed(h, b)
    ensures g == h
  {
  }

  lemma MixedBytesTell(h: bv64, a: bv8, b: bv8)
    requires Mixed(h, a) == Mixed(h, b)
    ensures a == b
  {
  }

  lemma HashesTell(g: bv64, h: bv64, c: char)
    requires FnvStep(g, c) == FnvStep(h, c)
    ensures g == h
  {
    hide TimesPrime, Mixed, Byte;
    PrimeTells(Mixed(g, Byte(c)), Mixed(h, Byte(c)));
    MixedHashesTell(g, h, Byte(c));
  }

  lemma StepsTell(h: bv64, x: char, y: char)
    requires x as int < 256 && y as int < 256 && FnvStep(h, x) == FnvStep(h, y)
    ensures x == y
  {
    hide TimesPrime, Mixed, Byte;
    PrimeTells(Mixed(h, Byte(x)), Mixed(h, Byte(y)));
    MixedBytesTell(h, Byte(x), Byte(y));
    BytesTell(x, y);
  }

  lemma {:induction false} FnvTells(g: bv64, h: bv64, s: string)
    ensures Fnv(g, s) == Fnv(h, s) <==> g == h
    decreases |s|
  {
    hide FnvStep;
    if s == [] {
    } else {
      FnvTells(FnvStep(g, s[0]), FnvStep(h, s[0]), s[1..]);
      if FnvStep(g, s[0]) == FnvStep(h, s[0]) { HashesTell(g, h, s[0]); }
    }
  }

  /** One changed byte always changes the hash. */
  lemma ChangedByteShows(h: bv64, a: string, x: char, y: char, b: string)
    requires x as int < 256 && y as int < 256
    ensures Fnv(h, a + [x] + b) == Fnv(h, a + [y] + b) <==> x == y
  {
    hide Fnv, FnvStep, Byte;
    var g := Fnv(h, a);
    FnvConcat(h, a + [x], b);
    FnvConcat(h, a + [y], b);
    FnvConcat(h, a, [x]);
    FnvConcat(h, a, [y]);
    FnvTells(Fnv(g, [x]), Fnv(g, [y]), b);
    FnvOne(g, x);
    FnvOne(g, y);
    if FnvStep(g, x) == FnvStep(g, y) { StepsTell(g, x, y); }
  }

  lemma FnvOne(h: bv64, c: char)
    ensures Fnv(h, [c]) == FnvStep(h, c)
  {
    hide FnvStep;
    assert [c][1..] == [];
  }

  /** The published values of the hash for the empty text and for `a`. */
  lemma PublishedValues()
    ensures Fnv(FNV_OFFSET, "") == 0xcbf2_9ce4_8422_2325 && Fnv(FNV_OFFSET, "a") == 0xaf63_dc4c_8601_ec8c
  {
    assert Byte('a') == 0x61;
    FnvOne(FNV_OFFSET, 'a');
  }

  // ----- contents ----------------------------------------------------------------------------------

  lemma {:induction false} SamePosition(f: SourceFile, g: SourceFile, s: seq<SourceFile>)
    requires f.rel == g.rel
    ensures Position(RelLe, f, s) == Position(RelLe, g, s)
  {
    if s == [] {
    } else {
      SamePosition(f, g, s[1..]);
    }
  }

  lemma ContentsTell(r: string, a: string, b: string)
    ensures Piece(SourceFile(r, Some(a))) == Piece(SourceFile(r, Some(b))) <==> Normalized(a) == Normalized(b)
  {
    hide Normalized;
    PrefixesAgree(r, Normalized(a), r, Normalized(b));
  }

  /** Where a file of another path stands among the sorted others. */
  lemma FileAmongOthers(before: seq<SourceFile>, f: SourceFile, after: seq<SourceFile>)
    requires OncePerPath(before + after) && forall x :: x in before || x in after ==> x.rel != f.rel
    ensures var s := Sort(RelLe, before + after); var i := Position(RelLe, f, s);
      Sort(RelLe, before + [f] + after) == s[..i] + [f] + s[i..]
  {
    hide Sort, Position;
    var all := before + [f] + after;
    assert forall x :: x in all ==> x == f || x in before + after;
    assert multiset(all) == multiset(before + after) + multiset{f};
    SortedWith(all, before + after, f);
  }

  /** Changing the contents of one source file changes the hashed text of its crate exactly when it changes more than
      line endings. */
  lemma FileEditedShows(
      before: seq<SourceFile>, r: string, a: string, b: string, after: seq<SourceFile>,
      manifest: Option<string>, declared: seq<string>)
    requires forall f :: f in before || f in after ==> f.rel != r
    requires OncePerPath(before + after)
    ensures CrateText(Crate(before + [SourceFile(r, Some(a))] + after, manifest, declared))
         == CrateText(Crate(before + [SourceFile(r, Some(b))] + after, manifest, declared))
       <==> Normalized(a) == Normalized(b)
  {
    var f, g, s := SourceFile(r, Some(a)), SourceFile(r, Some(b)), Sort(RelLe, before + after);
    var i := Position(RelLe, f, s);
    hide FilesText, Piece, FileBytes, Sort, Normalized, Position, OncePerPath, RelLe;
    FileAmongOthers(before, f, after);
    FileAmongOthers(before, g, after);
    SamePosition(f, g, s);
    FileReplacedInPlace(s, i, f, g);
    ContentsTell(r, a, b);
    SuffixesAgree(FilesText(s[..i] + [f] + s[i..]), FileBytes(manifest),
                  FilesText(s[..i] + [g] + s[i..]), FileBytes(manifest));
  }

  /** So does changing its manifest. */
  lemma ManifestEditedShows(files: seq<SourceFile>, a: string, b: string, declared: seq<string>, others: seq<string>)
    ensures CrateText(Crate(files, Some(a), declared)) == CrateText(Crate(files, Some(b), others))
       <==> Normalized(a) == Normalized(b)
  {
    hide FilesText, Sort, Normalized;
    PrefixesAgree(FilesText(Sort(RelLe, files)), Normalized(a), FilesText(Sort(RelLe, files)), Normalized(b));
  }

  /** What is hashed of a crate with one file: the file's path, its bytes and the manifest's, or the marker in place of
      what cannot be read. */
  lemma OneFileText(r: string, a: string, m: string, declared: seq<string>)
    ensures !Holds(a, "\r\n") ==>
      CrateText(Crate([SourceFile(r, Some(a))], Some(m), declared)) == r + a + Normalized(m)
    ensures CrateText(Crate([SourceFile(r, None)], None, declared)) == r + "<unreadable>" + "<unreadable>"
  {
    NormalizedShrinks(a);
    hide Normalized;
    OneFileSorted(SourceFile(r, Some(a)));
    OneFileSorted(SourceFile(r, None));
  }

  lemma OneFileSorted(f: SourceFile)
    ensures Sort(RelLe, [f]) == [f] && FilesText([f]) == Piece(f)
  {
    hide Piece;
    assert [f][1..] == [] && Sort(RelLe, []) == [];
    FilesTextOne(f);
  }

  lemma {:induction false} OtherByteStays(u: string, x: char, v: string)
    requires x != '\r' && x != '\n'
    ensures Normalized(u + [x] + v) == Normalized(u) + [x] + Normalized(v)
  {
    var s := u + [x] + v;
    if u == [] {
      assert s[1..] == v;
    } else {
      assert s[1..] == u[1..] + [x] + v;
      OtherByteStays(u[1..], x, v);
      assert StartsCrlf(s) <==> StartsCrlf(u);
    }
  }

  /** The text of a crate around one of its files. */
  lemma CrateTextAround(
      before: seq<SourceFile>, f: SourceFile, after: seq<SourceFile>, manifest: Option<string>, declared: seq<string>)
    requires OncePerPath(before + after) && forall x :: x in before || x in after ==> x.rel != f.rel
    ensures var s := Sort(RelLe, before + after); var i := Position(RelLe, f, s);
      CrateText(Crate(before + [f] + after, manifest, declared))
      == FilesText(s[..i]) + Piece(f) + (FilesText(s[i..]) + FileBytes(manifest))
  {
    hide FilesText, Piece, FileBytes, Sort, Position, OncePerPath, RelLe;
    var s := Sort(RelLe, before + after);
    var i := Position(RelLe, f, s);
    FileAmongOthers(before, f, after);
    FilesTextConcat(s[..i] + [f], s[i..]);
    FilesTextConcat(s[..i], [f]);
    FilesTextOne(f);
    Regroup(FilesText(s[..i]) + Piece(f), FilesText(s[i..]), FileBytes(manifest));
  }

  /** Changing one byte of one file, no part of a line ending, always changes the hash of the crate. */
  lemma OneByteEditShows(
      before: seq<SourceFile>, r: string, u: string, x: char, y: char, v: string, after: seq<SourceFile>,
      manifest: Option<string>, declared: seq<string>)
    requires OncePerPath(before + after) && forall f :: f in before || f in after ==> f.rel != r
    requires {x, y} !! {'\r', '\n'} && x as int < 256 && y as int < 256
    ensures CrateHash(Crate(before + [SourceFile(r, Some(u + [x] + v))] + after, manifest, declared))
         == CrateHash(Crate(before + [SourceFile(r, Some(u + [y] + v))] + after, manifest, declared))
       <==> x == y
  {
    var f, g := SourceFile(r, Some(u + [x] + v)), SourceFile(r, Some(u + [y] + v));
    var s := Sort(RelLe, before + after);
    var i := Position(RelLe, f, s);
    SamePosition(f, g, s);
    CrateTextAround(before, f, after, manifest, declared);
    CrateTextAround(before, g, after, manifest, declared);
    assert x !in {'\r', '\n'} && y !in {'\r', '\n'};
    OtherByteStays(u, x, v);
    OtherByteStays(u, y, v);
    PieceOf(r, u + [x] + v);
    PieceOf(r, u + [y] + v);
    hide Fnv, FilesText, Piece, FileBytes, Sort, Position, Normalized, CrateText;
    var a, b := FilesText(s[..i]) + r + Normalized(u), Normalized(v) + (FilesText(s[i..]) + FileBytes(manifest));
    Split5(FilesText(s[..i]), r, Normalized(u), x, Normalized(v), FilesText(s[i..]) + FileBytes(manifest));
    Split5(FilesText(s[..i]), r, Normalized(u), y, Normalized(v), FilesText(s[i..]) + FileBytes(manifest));
    ChangedByteShows(FNV_OFFSET, a, x, y, b);
  }

  lemma PieceOf(r: string, a: string)
    ensures Piece(SourceFile(r, Some(a))) == r + Normalized(a)
  {
  }

  lemma Split5(p: string, r: string, u: string, x: char, v: string, q: string)
    ensures p + (r + (u + [x] + v)) + q == (p + r + u) + [x] + (v + q)
  {
  }

  // ----- which crates, under which names -----------------------------------------------------------

  /** Every path a manifest declares that leads to a directory is an edge, and nothing else is: an absolute path as it
      is, any other below the crate. */
  lemma DeclaredPathsAreEdges(w: World, c: string, t: string)
    requires c in w.dirs
    ensures Edge(Dependencies(w), c, t) <==>
      || (exists v :: v in w.crate(c).declared && v != "" && v[0] == '/' && w.canonical(v) == Some(t))
      || (exists v :: v in w.crate(c).declared && (v == "" || v[0] != '/') && w.canonical(c + "/" + v) == Some(t))
  {
    var values := w.crate(c).declared;
    ResolvedMembers(w, Declared(w, c, values), t);
    if Edge(Dependencies(w), c, t) {
      var i :| 0 <= i < |Declared(w, c, values)| && w.canonical(Declared(w, c, values)[i]) == Some(t);
      assert values[i] in values && Declared(w, c, values)[i] == Under(c, values[i]);
    }
    forall v | v in values && w.canonical(Under(c, v)) == Some(t) ensures Edge(Dependencies(w), c, t) {
      var i :| 0 <= i < |values| && values[i] == v;
      assert Declared(w, c, values)[i] == Under(c, v);
    }
  }

  /** What is hashed of one crate. */
  lemma LoneCrateText(w: World, a: string)
    ensures FingerprintText(w, {a}) == LastComponent(a) + Hex(CrateHash(w.crate(a)), 16)
  {
    hide CrateHash, LastComponent, Hex;
    AscendingOne(a);
    ContributionsOne(HashOf(w), a);
  }

  /** The last component of a path is what stands after its last slash. */
  lemma {:induction false} LastComponentIs(p: string, n: string)
    requires '/' !in n
    ensures LastComponent(n) == n && LastComponent(p + "/" + n) == n
  {
    var s := p + "/" + n;
    if n == [] {
    } else {
      var k := |n| - 1;
      assert s[..|s| - 1] == p + "/" + n[..k];
      assert n == n[..k] + [n[k]];
      LastComponentIs(p, n[..k]);
    }
  }

  /** The sixteen digits are the usual ones, most significant first. */
  lemma DigitsInOrder()
    ensures Hex(0x0123_4567_89ab_cdef, 16) == "0123456789abcdef"
  {
    hide Hex;
    FourDigits(0x0123, 0, 0, "0123");
    FourDigits(0x0123_4567, 0x0123, 4, "4567");
    FourDigits(0x0123_4567_89ab, 0x0123_4567, 8, "89ab");
    FourDigits(0x0123_4567_89ab_cdef, 0x0123_4567_89ab, 12, "cdef");
    NoDigits();
    assert "" + "0123" + "4567" + "89ab" + "cdef" == "0123456789abcdef";
  }

  lemma NoDigits()
    ensures Hex(0, 0) == ""
  {
  }

  lemma FourDigits(h: bv64, top: bv64, n: nat, digits: string)
    requires h >> 4 >> 4 >> 4 >> 4 == top && |digits| == 4
    requires digits[0] == HexDigit((h >> 4 >> 4 >> 4) & 0xf) && digits[1] == HexDigit((h >> 4 >> 4) & 0xf)
    requires digits[2] == HexDigit((h >> 4) & 0xf) && digits[3] == HexDigit(h & 0xf)
    ensures Hex(h, n + 4) == Hex(top, n) + digits
  {
    hide HexDigit;
    assert Hex(h, n + 4) == Hex(h >> 4, n + 3) + [digits[3]];
    assert Hex(h >> 4, n + 3) == Hex(h >> 4 >> 4, n + 2) + [digits[2]];
    assert Hex(h >> 4 >> 4, n + 2) == Hex(h >> 4 >> 4 >> 4, n + 1) + [digits[1]];
    assert Hex(h >> 4 >> 4 >> 4, n + 1) == Hex(top, n) + [digits[0]];
    assert digits == [digits[0]] + [digits[1]] + [digits[2]] + [digits[3]];
  }
}
