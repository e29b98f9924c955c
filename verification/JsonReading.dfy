/** What a reader of JSON sees of a text: strings, punctuation and the characters of words, without white space and
    comments; and what the two passes do to that. */
module JsonReading {
  import opened Jsonc
  import opened Sequences
  import opened TrailingCommas

  predicate Mark(c: char) {
    c == ',' || c == ':' || c == '[' || c == ']' || c == '{' || c == '}'
  }

  predicate Blank(g: Segment, white: char -> bool) {
    g.LineComment? || g.BlockComment? || (g.Plain? && white(g.c))
  }

  /** A character of a number or a name. */
  predicate InWord(g: Segment, white: char -> bool) {
    g.Plain? && !white(g.c) && !Mark(g.c)
  }

  /** A segment that is read. `joined` says that it continues the word of the one before. */
  datatype Ink = Ink(segment: Segment, joined: bool)

  /** What one segment adds to the reading, after a word character or not. */
  function InksOf(g: Segment, after: bool, white: char -> bool): seq<Ink> {
    if Blank(g, white) then [] else [Ink(g, after && InWord(g, white))]
  }

  /** The reading of segments that follow a word character directly, or do not. */
  function Inks(gs: seq<Segment>, after: bool, white: char -> bool): seq<Ink> {
    if gs == [] then []
    else InksOf(gs[0], after, white) + Inks(gs[1..], InWord(gs[0], white), white)
  }

  function Reading(s: string, white: char -> bool): seq<Ink> {
    Inks(Scan(s), false, white)
  }

  /** White space as the two passes and the reader agree on it. */
  ghost predicate Spaces(white: char -> bool) {
    Proper(white) && white('\n')
  }

  predicate EndsInWord(gs: seq<Segment>, after: bool, white: char -> bool) {
    if gs == [] then after else InWord(gs[|gs| - 1], white)
  }

  lemma InksCons(g: Segment, gs: seq<Segment>, after: bool, white: char -> bool)
    ensures Inks([g] + gs, after, white) == InksOf(g, after, white) + Inks(gs, InWord(g, white), white)
    ensures EndsInWord([g] + gs, after, white) == EndsInWord(gs, InWord(g, white), white)
  {
    hide InWord, InksOf;
    assert ([g] + gs)[1..] == gs;
  }

  lemma {:induction false} InksSnoc(gs: seq<Segment>, g: Segment, after: bool, white: char -> bool)
    ensures Inks(gs + [g], after, white) == Inks(gs, after, white) + InksOf(g, EndsInWord(gs, after, white), white)
  {
    hide InWord, InksOf;
    if gs == [] {
      InksCons(g, [], after, white);
      assert [g] + [] == [g] && gs + [g] == [g];
    } else {
      hide Inks, EndsInWord;
      var b := InWord(gs[0], white);
      assert gs == [gs[0]] + gs[1..] && gs + [g] == [gs[0]] + (gs[1..] + [g]);
      InksCons(gs[0], gs[1..] + [g], after, white);
      InksCons(gs[0], gs[1..], after, white);
      InksSnoc(gs[1..], g, b, white);
      Regroup(InksOf(gs[0], after, white), Inks(gs[1..], b, white), InksOf(g, EndsInWord(gs, after, white), white));
    }
  }

  // ----- removing comments -------------------------------------------------------------------------

  /** Two word characters that nothing but vanishing comments keeps apart. */
  predicate Fuses(gs: seq<Segment>, i: int, j: int, white: char -> bool) {
    && 0 <= i && i + 1 < j < |gs| && InWord(gs[i], white) && InWord(gs[j], white)
    && forall k :: i < k < j ==> Vanishes(gs[k])
  }

  ghost predicate NothingFuses(gs: seq<Segment>, white: char -> bool) {
    forall i, j :: !Fuses(gs, i, j, white)
  }

  /** The last segment that leaves something is a word character. */
  ghost predicate WordIsLast(gs: seq<Segment>, white: char -> bool) {
    exists i :: 0 <= i < |gs| && InWord(gs[i], white) && forall k :: i < k < |gs| ==> Vanishes(gs[k])
  }

  lemma WordIsLastSnoc(gs: seq<Segment>, g: Segment, white: char -> bool)
    ensures WordIsLast(gs + [g], white) <==> InWord(g, white) || (Vanishes(g) && WordIsLast(gs, white))
  {
    hide InWord, Vanishes;
    var all := gs + [g];
    if WordIsLast(all, white) {
      var i :| 0 <= i < |all| && InWord(all[i], white) && forall k :: i < k < |all| ==> Vanishes(all[k]);
      if i < |gs| {
        assert Vanishes(all[|gs|]);
        assert InWord(gs[i], white);
        forall k | i < k < |gs| ensures Vanishes(gs[k]) { assert Vanishes(all[k]); }
      }
    }
    if InWord(g, white) {
      assert InWord(all[|gs|], white);
    }
    if Vanishes(g) && WordIsLast(gs, white) {
      var i :| 0 <= i < |gs| && InWord(gs[i], white) && forall k :: i < k < |gs| ==> Vanishes(gs[k]);
      assert InWord(all[i], white);
    }
  }

  lemma AllNewlines(s: string, gs: seq<Segment>, white: char -> bool)
    requires Spaces(white) && gs != [] && gs == Plains(NewlinesOf(s))
    ensures !InWord(gs[|gs| - 1], white) && forall g :: g in gs ==> Blank(g, white)
  {
    forall g | g in gs ensures g == Plain('\n') {
      PlainsOfNewlines(s, g);
    }
    assert gs[|gs| - 1] in gs;
  }

  lemma {:induction false} PlainsOfNewlines(s: string, g: Segment)
    requires g in Plains(NewlinesOf(s))
    ensures g == Plain('\n')
  {
    if s == [] {
    } else if s[0] == '\n' {
      assert NewlinesOf(s) == ['\n'] + NewlinesOf(s[1..]);
      PlainsStep('\n', NewlinesOf(s[1..]));
      if g != Plain('\n') { PlainsOfNewlines(s[1..], g); }
    } else {
      assert NewlinesOf(s) == NewlinesOf(s[1..]);
      PlainsOfNewlines(s[1..], g);
    }
  }

  lemma SurvivingSnoc(gs: seq<Segment>, g: Segment)
    ensures SurvivingAll(gs + [g]) == SurvivingAll(gs) + Surviving(g)
  {
    SurvivingConcat(gs, [g]);
    assert [g][1..] == [];
    assert SurvivingAll([g]) == Surviving(g) + [];
  }

  /** What the surviving segments end in. */
  lemma {:induction false} SurvivorsEnd(gs: seq<Segment>, white: char -> bool)
    requires Spaces(white)
    ensures EndsInWord(SurvivingAll(gs), false, white) <==> WordIsLast(gs, white)
  {
    if gs == [] {
    } else {
      var n := |gs| - 1;
      var g := gs[n];
      assert gs == gs[..n] + [g];
      SurvivorsEnd(gs[..n], white);
      SurvivingSnoc(gs[..n], g);
      WordIsLastSnoc(gs[..n], g, white);
      hide WordIsLast, SurvivingAll, Vanishes;
      EndsAfter(SurvivingAll(gs[..n]), g, white);
    }
  }

  lemma EndsAfter(before: seq<Segment>, g: Segment, white: char -> bool)
    requires Spaces(white)
    ensures EndsInWord(before + Surviving(g), false, white) <==>
      InWord(g, white) || (Vanishes(g) && EndsInWord(before, false, white))
  {
    NothingSurvivesIff(g);
    if Surviving(g) == [] {
      assert before + Surviving(g) == before;
    } else if g.BlockComment? {
      AllNewlines(g.body, Surviving(g), white);
    }
  }

  lemma {:induction false} InksOfBlanks(gs: seq<Segment>, blanks: seq<Segment>, white: char -> bool)
    requires forall g :: g in blanks ==> Blank(g, white)
    ensures Inks(gs + blanks, false, white) == Inks(gs, false, white)
  {
    hide Blank;
    if blanks == [] {
      assert gs + blanks == gs;
    } else {
      var n := |blanks| - 1;
      assert blanks[n] in blanks && blanks == blanks[..n] + [blanks[n]];
      assert gs + blanks == (gs + blanks[..n]) + [blanks[n]];
      InksOfBlanks(gs, blanks[..n], white);
      InksSnoc(gs + blanks[..n], blanks[n], false, white);
    }
  }

  /** The surviving segments read like the segments, but for what is joined. */
  lemma SurvivorsOfOneMore(gs: seq<Segment>, g: Segment, white: char -> bool)
    requires Spaces(white)
    ensures Inks(SurvivingAll(gs + [g]), false, white)
         == Inks(SurvivingAll(gs), false, white) + InksOf(g, WordIsLast(gs, white), white)
  {
    hide SurvivingAll, Inks, WordIsLast;
    SurvivingSnoc(gs, g);
    SurvivorsEnd(gs, white);
    if Stays(g) {
      InksSnoc(SurvivingAll(gs), g, false, white);
    } else {
      if Surviving(g) != [] && g.BlockComment? { AllNewlines(g.body, Surviving(g), white); }
      InksOfBlanks(SurvivingAll(gs), Surviving(g), white);
    }
  }

  lemma FusesLast(gs: seq<Segment>, g: Segment, white: char -> bool)
    ensures NothingFuses(gs + [g], white) <==>
      NothingFuses(gs, white) && (InWord(g, white) && WordIsLast(gs, white) ==> EndsInWord(gs, false, white))
  {
    hide InWord, Vanishes;
    var all, n := gs + [g], |gs|;
    forall i, j | 0 <= i < j < n ensures Fuses(gs, i, j, white) <==> Fuses(all, i, j, white) {
      if Fuses(gs, i, j, white) {
        forall k | i < k < j ensures Vanishes(all[k]) { assert Vanishes(gs[k]); }
      }
      if Fuses(all, i, j, white) {
        forall k | i < k < j ensures Vanishes(gs[k]) { assert Vanishes(all[k]); }
      }
    }
    if InWord(g, white) && WordIsLast(gs, white) && !EndsInWord(gs, false, white) {
      var i :| 0 <= i < |gs| && InWord(gs[i], white) && forall k :: i < k < |gs| ==> Vanishes(gs[k]);
      assert i < n - 1;
      forall k | i < k < n ensures Vanishes(all[k]) { assert Vanishes(gs[k]); }
      assert Fuses(all, i, n, white);
    }
    if NothingFuses(gs, white) && !NothingFuses(all, white) {
      var i, j :| Fuses(all, i, j, white);
      assert j == n;
      assert Vanishes(all[n - 1]) && InWord(all[i], white);
      forall k | i < k < n ensures Vanishes(gs[k]) { assert Vanishes(all[k]); }
      assert WordIsLast(gs, white);
      VanishingIsNoWord(gs[n - 1], white);
    }
    if !NothingFuses(gs, white) {
      var i, j :| Fuses(gs, i, j, white);
      assert Fuses(all, i, j, white);
    }
  }

  lemma VanishingIsNoWord(g: Segment, white: char -> bool)
    ensures Vanishes(g) ==> !InWord(g, white)
  {
  }

  /** Two readings that differ at most in what is joined. */
  ghost predicate SameSegments(x: seq<Ink>, y: seq<Ink>) {
    |x| == |y| && forall i :: 0 <= i < |x| ==> x[i].segment == y[i].segment
  }

  /** Removing comments keeps the reading exactly when it fuses no two words. */
  lemma {:induction false} SurvivorsReadAlike(gs: seq<Segment>, white: char -> bool)
    requires Spaces(white)
    ensures SameSegments(Inks(SurvivingAll(gs), false, white), Inks(gs, false, white))
    ensures Inks(SurvivingAll(gs), false, white) == Inks(gs, false, white) <==> NothingFuses(gs, white)
  {
    if gs == [] {
    } else {
      var n := |gs| - 1;
      var front, g := gs[..n], gs[n];
      assert gs == front + [g];
      SurvivorsReadAlike(front, white);
      SurvivorsOfOneMore(front, g, white);
      InksSnoc(front, g, false, white);
      FusesLast(front, g, white);
      EndingIsLast(front, white);
      hide Inks, SurvivingAll, NothingFuses, WordIsLast, EndsInWord;
      PairsAgree(Inks(SurvivingAll(front), false, white), InksOf(g, WordIsLast(front, white), white),
                 Inks(front, false, white), InksOf(g, EndsInWord(front, false, white), white));
    }
  }

  lemma EndingIsLast(gs: seq<Segment>, white: char -> bool)
    ensures EndsInWord(gs, false, white) ==> WordIsLast(gs, white)
  {
  }

  lemma PairsAgree(a: seq<Ink>, x: seq<Ink>, b: seq<Ink>, y: seq<Ink>)
    requires SameSegments(a, b) && SameSegments(x, y)
    ensures SameSegments(a + x, b + y)
    ensures a + x == b + y <==> a == b && x == y
  {
    if a + x == b + y {
      assert (a + x)[..|a|] == a && (b + y)[..|a|] == b && (a + x)[|a|..] == x && (b + y)[|a|..] == y;
    }
  }

  /** Removing comments from a text keeps its reading exactly when no two word characters are kept apart by nothing
      but comments without a newline. */
  lemma StrippedReadsAlikeIff(s: string, white: char -> bool)
    requires Spaces(white)
    ensures SameSegments(Reading(Strip(s, Outside), white), Reading(s, white))
    ensures Reading(Strip(s, Outside), white) == Reading(s, white) <==> NothingFuses(Scan(s), white)
  {
    hide Scan, Strip, SurvivingAll, Inks, NothingFuses, SameSegments;
    ScanOfStripped(s);
    SurvivorsReadAlike(Scan(s), white);
  }

  // ----- blanking trailing commas ------------------------------------------------------------------

  predicate Closer(g: Segment) {
    g == Plain('}') || g == Plain(']')
  }

  /** A reading without the commas right before a closing brace or bracket. */
  function WithoutTrailing(x: seq<Ink>): seq<Ink> {
    if x == [] then []
    else if x[0].segment == Plain(',') && |x| > 1 && Closer(x[1].segment) then WithoutTrailing(x[1..])
    else [x[0]] + WithoutTrailing(x[1..])
  }

  /** The next segment that is read closes an object or array. */
  predicate ClosesNext(gs: seq<Segment>, white: char -> bool) {
    gs != [] && if Blank(gs[0], white) then ClosesNext(gs[1..], white) else Closer(gs[0])
  }

  lemma {:induction false} ClosesNextInk(gs: seq<Segment>, after: bool, white: char -> bool)
    ensures ClosesNext(gs, white) <==> var x := Inks(gs, after, white); x != [] && Closer(x[0].segment)
  {
    if gs == [] || !Blank(gs[0], white) {
    } else {
      ClosesNextInk(gs[1..], InWord(gs[0], white), white);
    }
  }

  /** In a text without comments, the segments say what the character positions say. */
  lemma {:induction false} ClosesAtNextInk(u: string, white: char -> bool)
    requires Spaces(white) && NoComments(Scan(u))
    ensures ClosesNext(Scan(u), white) <==> Closes(u, NextInk(u, 0, white))
    decreases |u|
  {
    if u == [] {
    } else {
      assert Scan(u)[1..] == Scan(Rest(u));
      if white(u[0]) {
        ClosesAtNextInk(u[1..], white);
        NextInkTail(u, 1, 0, white);
      } else {
        assert NextInk(u, 0, white) == 0;
      }
    }
  }

  lemma {:induction false} NextInkTail(u: string, k: nat, j: nat, white: char -> bool)
    requires k + j <= |u|
    ensures NextInk(u, k + j, white) == k + NextInk(u[k..], j, white)
    decreases |u| - j
  {
    if k + j == |u| || !white(u[k + j]) {
    } else {
      NextInkTail(u, k, j + 1, white);
    }
  }

  /** Blanking a text blanks every suffix outside strings. */
  lemma BlankedTail(u: string, k: nat, white: char -> bool)
    requires k <= |u| && QuoteAt(u, k) == Outside
    ensures Blanked(u, white)[k..] == Blanked(u[k..], white)
  {
    var l, r := Blanked(u, white)[k..], Blanked(u[k..], white);
    forall i | 0 <= i < |u| - k ensures l[i] == r[i] {
      QuoteAtTail(u, k, i);
      NextInkTail(u, k, i + 1, white);
    }
    assert l == r;
  }

  lemma RestIsOutside(u: string)
    requires u != [] && NoComments(Scan(u))
    ensures var k := |u| - |Rest(u)|; QuoteAt(u, k) == Outside || k == |u|
    ensures Rest(u) == u[|u| - |Rest(u)|..]
    ensures NoComments(Scan(Rest(u)))
  {
    NoCommentsAfter(u);
    hide Scan, NoComments;
    if u[0] == '"' {
      StringIsLeft(u);
    } else {
      assert QuoteAt(u, 1) == Next(QuoteAt(u, 0), u[0]);
    }
  }

  lemma NoCommentsAfter(u: string)
    requires u != [] && NoComments(Scan(u))
    ensures NoComments(Scan(Rest(u)))
    ensures u[0] != '"' ==> FirstSegment(u) == Plain(u[0]) && Rest(u) == u[1..]
  {
    assert Scan(u)[1..] == Scan(Rest(u));
  }

  lemma ClosingQuote(s: string, escaped: bool)
    requires s != [] && QuotedLength(s, escaped) == 0
    ensures !escaped && s[0] == '"'
  {
  }

  lemma QuoteStep(u: string, i: nat)
    requires i < |u|
    ensures QuoteAt(u, i + 1) == Next(QuoteAt(u, i), u[i])
  {
  }

  lemma StringRest(u: string)
    requires u != [] && u[0] == '"'
    ensures Rest(u) == Drop(u, QuotedLength(u[1..], false) + 2)
  {
    hide QuotedLength, Drop;
    var n := QuotedLength(u[1..], false);
    assert |u[1..1 + n]| == n;
  }

  lemma StringIsLeft(u: string)
    requires u != [] && u[0] == '"'
    ensures var k := |u| - |Rest(u)|; (QuoteAt(u, k) == Outside || k == |u|) && Rest(u) == u[k..]
  {
    hide QuotedLength, QuoteAt, Rest;
    var n := QuotedLength(u[1..], false);
    StringRest(u);
    if n < |u[1..]| {
      InsideBody(u, n);
      ClosingQuote(u[1 + n..], QuoteAt(u, 1 + n).escaped);
      QuoteStep(u, 1 + n);
    }
  }

  /** The first segment after blanking, and the rest. */
  lemma BlankedFirst(u: string, white: char -> bool)
    requires Spaces(white) && u != [] && NoComments(Scan(u))
    ensures var t := Blanked(u, white);
      && t != [] && Rest(t) == Blanked(Rest(u), white)
      && FirstSegment(t) == if Trailing(u, 0, white) then Plain(' ') else FirstSegment(u)
  {
    hide Blanked, Scan, QuoteAt, NextInk;
    var t := Blanked(u, white);
    BlankedIsAlike(u, white);
    assert Same(u, t, 0);
    BlankedAtStart(u, white);
    BlankedRest(u, white);
    if u[0] == '"' {
      QuotedAlike(u, t);
    } else {
      PlainFirst(u);
      PlainAlike(u, t);
    }
  }

  lemma PlainFirst(u: string)
    requires u != [] && u[0] != '"' && NoComments(Scan(u))
    ensures FirstSegment(u) == Plain(u[0]) && Rest(u) == u[1..]
  {
  }

  lemma BlankedAtStart(u: string, white: char -> bool)
    requires u != []
    ensures Blanked(u, white)[0] == if Trailing(u, 0, white) then ' ' else u[0]
  {
  }

  lemma BlankedRest(u: string, white: char -> bool)
    requires u != [] && NoComments(Scan(u))
    ensures Blanked(u, white)[|u| - |Rest(u)|..] == Blanked(Rest(u), white)
  {
    RestIsOutside(u);
    if |Rest(u)| > 0 { BlankedTail(u, |u| - |Rest(u)|, white); }
  }

  lemma InksOfText(s: string, after: bool, white: char -> bool)
    requires s != []
    ensures var g := FirstSegment(s);
      Inks(Scan(s), after, white) == InksOf(g, after, white) + Inks(Scan(Rest(s)), InWord(g, white), white)
  {
    hide FirstSegment, Rest;
    assert Scan(s)[1..] == Scan(Rest(s));
  }

  lemma TrailingInk(g: Segment, after: bool, x: seq<Ink>, white: char -> bool)
    requires Spaces(white)
    ensures WithoutTrailing(InksOf(g, after, white) + x) ==
      if g == Plain(',') && x != [] && Closer(x[0].segment) then WithoutTrailing(x)
      else InksOf(g, after, white) + WithoutTrailing(x)
  {
    var all := InksOf(g, after, white) + x;
    if Blank(g, white) {
      assert all == x;
    } else {
      assert all[1..] == x;
    }
  }

  /** A comma trails in the text exactly when it does among the segments. */
  lemma TrailingSegment(u: string, white: char -> bool)
    requires Spaces(white) && u != [] && NoComments(Scan(u))
    ensures Trailing(u, 0, white) <==> FirstSegment(u) == Plain(',') && ClosesNext(Scan(Rest(u)), white)
  {
    RestIsOutside(u);
    if u[0] == ',' {
      assert Rest(u) == u[1..];
      ClosesAtNextInk(u[1..], white);
      NextInkTail(u, 1, 0, white);
    } else {
      FirstIsHead(u);
    }
  }

  /** Blanking takes exactly the trailing commas out of the reading. */
  lemma {:induction false} BlankedReading(u: string, after: bool, white: char -> bool)
    requires Spaces(white) && NoComments(Scan(u))
    ensures Inks(Scan(Blanked(u, white)), after, white) == WithoutTrailing(Inks(Scan(u), after, white))
    decreases |u|
  {
    hide FirstSegment, Rest, Trailing, ClosesNext, Blanked, QuoteAt;
    if u == [] {
      assert Scan(u) == [] && Blanked(u, white) == [];
    } else {
      hide Scan, Inks, WithoutTrailing, NoComments, InksOf;
      var t, g := Blanked(u, white), FirstSegment(u);
      var b := InWord(g, white);
      BlankedFirst(u, white);
      RestIsOutside(u);
      TrailingSegment(u, white);
      InksOfText(u, after, white);
      InksOfText(t, after, white);
      BlankedReading(Rest(u), b, white);
      ClosesNextInk(Scan(Rest(u)), b, white);
      TrailingInk(g, after, Inks(Scan(Rest(u)), b, white), white);
      NothingOfSpace(after, Inks(Scan(Rest(t)), b, white), white);
    }
  }

  lemma NothingOfSpace(after: bool, x: seq<Ink>, white: char -> bool)
    requires Spaces(white)
    ensures InksOf(Plain(' '), after, white) + x == x && !InWord(Plain(' '), white) && !InWord(Plain(','), white)
  {
  }

  // ----- both passes -------------------------------------------------------------------------------

  /** No comma continues a word. */
  ghost predicate CommasApart(x: seq<Ink>) {
    forall i :: 0 <= i < |x| && x[i].segment == Plain(',') ==> !x[i].joined
  }

  lemma {:induction false} ReadingCommasApart(gs: seq<Segment>, after: bool, white: char -> bool)
    ensures CommasApart(Inks(gs, after, white))
  {
    if gs == [] {
    } else {
      ReadingCommasApart(gs[1..], InWord(gs[0], white), white);
    }
  }

  /** What differs only in what is joined still differs without its trailing commas. */
  lemma {:induction false} WithoutTrailingTells(x: seq<Ink>, y: seq<Ink>)
    requires SameSegments(x, y) && CommasApart(x) && CommasApart(y)
    ensures WithoutTrailing(x) == WithoutTrailing(y) <==> x == y
  {
    if x == [] {
    } else {
      assert x == [x[0]] + x[1..] && y == [y[0]] + y[1..];
      assert |x| > 1 ==> x[1].segment == y[1].segment;
      WithoutTrailingTells(x[1..], y[1..]);
      if x[0].segment == Plain(',') {
        assert x[0] == y[0];
      }
      if WithoutTrailing(x) == WithoutTrailing(y) && !(x[0].segment == Plain(',') && |x| > 1 && Closer(x[1].segment)) {
        assert WithoutTrailing(x)[1..] == WithoutTrailing(x[1..]);
        assert WithoutTrailing(y)[1..] == WithoutTrailing(y[1..]);
      }
    }
  }

  /** Main result, for every text: the cleaned text reads as the text without its trailing commas, unless comments
      keep apart what would read as one word. */
  lemma CleanedReadingIff(s: string, white: char -> bool)
    requires Spaces(white)
    ensures Reading(Cleaned(s, white), white) == WithoutTrailing(Reading(s, white)) <==> NothingFuses(Scan(s), white)
  {
    hide Scan, Strip, Blanked, Inks, NothingFuses, WithoutTrailing, Strings, NoComments, SameSegments, CommasApart;
    StrippedReadsAlikeIff(s, white);
    StrippedTextIs(s);
    BlankedReading(Strip(s, Outside), false, white);
    ReadingCommasApart(Scan(s), false, white);
    ReadingCommasApart(Scan(Strip(s, Outside)), false, white);
    WithoutTrailingTells(Reading(Strip(s, Outside), white), Reading(s, white));
  }
}
