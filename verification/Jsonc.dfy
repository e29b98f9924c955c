/** Comment stripping: the first of the two passes that turn JSON with comments into JSON. */
module Jsonc {
  import opened Sequences

  /** Position of a scanner relative to double-quoted strings. */
  datatype Quote = Outside | Inside(escaped: bool)

  function Next(q: Quote, c: char): Quote {
    match q
    case Outside => if c == '"' then Inside(false) else Outside
    case Inside(escaped) =>
      if escaped then Inside(false) else if c == '\\' then Inside(true) else if c == '"' then Outside else q
  }

  predicate OpensLine(s: string) {
    |s| >= 2 && s[0] == '/' && s[1] == '/'
  }

  predicate OpensBlock(s: string) {
    |s| >= 2 && s[0] == '/' && s[1] == '*'
  }

  predicate ClosesBlock(s: string) {
    |s| >= 2 && s[0] == '*' && s[1] == '/'
  }

  function LineLength(s: string): (n: nat)
    ensures n <= |s|
  {
    if s == [] || s[0] == '\n' || s[0] == '\r' then 0 else 1 + LineLength(s[1..])
  }

  function BlockLength(s: string): (n: nat)
    ensures n <= |s|
    ensures n < |s| ==> ClosesBlock(s[n..])
  {
    if s == [] || ClosesBlock(s) then 0 else 1 + BlockLength(s[1..])
  }

  function NewlinesOf(s: string): string {
    if s == [] then [] else (if s[0] == '\n' then "\n" else "") + NewlinesOf(s[1..])
  }

  function Drop(s: string, n: nat): string {
    if n <= |s| then s[n..] else []
  }

  /** Pass one, character by character. */
  function Strip(s: string, q: Quote): string
    decreases |s|
  {
    if s == [] then []
    else if q.Outside? && OpensLine(s) then Strip(s[2 + LineLength(s[2..])..], Outside)
    else if q.Outside? && OpensBlock(s) then
      var n := BlockLength(s[2..]);
      NewlinesOf(s[2..2 + n]) + Strip(Drop(s, n + 4), Outside)
    else [s[0]] + Strip(s[1..], Next(q, s[0]))
  }

  function QuoteOf(inString: bool, escaped: bool): Quote {
    if inString then Inside(escaped) else Outside
  }

  lemma UnfoldCharacter(s: string, q: Quote)
    requires s != [] && (q.Outside? ==> !OpensLine(s) && !OpensBlock(s))
    ensures Strip(s, q) == [s[0]] + Strip(s[1..], Next(q, s[0]))
  {
  }

  lemma UnfoldLine(s: string)
    requires OpensLine(s)
    ensures Strip(s, Outside) == Strip(s[2 + LineLength(s[2..])..], Outside)
  {
    hide LineLength, BlockLength, NewlinesOf;
  }

  lemma UnfoldBlock(s: string)
    requires OpensBlock(s)
    ensures var n := BlockLength(s[2..]);
      Strip(s, Outside) == NewlinesOf(s[2..2 + n]) + Strip(Drop(s, n + 4), Outside)
  {
  }

  lemma StepLine(chars: string, i: nat)
    requires i < |chars| && OpensLine(chars[i..])
    ensures Strip(chars[i..], Outside) == Strip(chars[i + 2 + LineLength(chars[i + 2..])..], Outside)
  {
    UnfoldLine(chars[i..]);
    hide Strip, LineLength;
    var n := LineLength(chars[i + 2..]);
    assert chars[i..][2..] == chars[i + 2..];
    assert chars[i..][2 + n..] == chars[i + 2 + n..];
  }

  lemma BlockSlices(chars: string, i: nat, n: nat)
    requires i + 2 + n <= |chars|
    ensures chars[i..][2..] == chars[i + 2..]
    ensures chars[i..][2..2 + n] == chars[i + 2..i + 2 + n]
    ensures Drop(chars[i..], n + 4) == Drop(chars, i + n + 4)
  {
  }

  lemma NewlinesSnoc(s: string, c: char)
    ensures NewlinesOf(s + [c]) == NewlinesOf(s) + if c == '\n' then "\n" else ""
  {
    NewlinesConcat(s, [c]);
    assert [c][1..] == [];
  }

  method SkipLine(chars: string, start: nat) returns (i: nat)
    requires start <= |chars|
    ensures i == start + LineLength(chars[start..])
  {
    i := start;
    while i < |chars| && chars[i] != '\n' && chars[i] != '\r'
      invariant start <= i <= |chars|
      invariant i + LineLength(chars[i..]) == start + LineLength(chars[start..])
    {
      assert chars[i..][1..] == chars[i + 1..];
      i := i + 1;
    }
  }

  lemma BlockEnds(s: string)
    requires s == [] || ClosesBlock(s)
    ensures BlockLength(s) == 0
  {
  }

  lemma NoNewlines(s: string)
    requires s == []
    ensures NewlinesOf(s) == []
  {
  }

  lemma StepInBlock(chars: string, start: nat, i: nat)
    requires start <= i < |chars| && !ClosesBlock(chars[i..])
    ensures BlockLength(chars[i..]) == 1 + BlockLength(chars[i + 1..])
    ensures NewlinesOf(chars[start..i + 1]) == NewlinesOf(chars[start..i]) + if chars[i] == '\n' then "\n" else ""
  {
    assert chars[i..][1..] == chars[i + 1..];
    assert chars[start..i + 1] == chars[start..i] + [chars[i]];
    NewlinesSnoc(chars[start..i], chars[i]);
  }

  /** Skips to the end of a block comment, re-emitting the newlines it crosses. */
  method SkipBlock(chars: string, start: nat, before: string) returns (i: nat, out: string)
    requires start <= |chars|
    ensures i == start + BlockLength(chars[start..])
    ensures out == before + NewlinesOf(chars[start..i])
  {
    hide NewlinesOf, BlockLength;
    i, out := start, before;
    NoNewlines(chars[start..start]);
    while i < |chars| && !(chars[i] == '*' && i + 1 < |chars| && chars[i + 1] == '/')
      invariant start <= i <= |chars|
      invariant i + BlockLength(chars[i..]) == start + BlockLength(chars[start..])
      invariant out == before + NewlinesOf(chars[start..i])
    {
      StepInBlock(chars, start, i);
      if chars[i] == '\n' {
        out := out + ['\n'];
      }
      i := i + 1;
    }
    BlockEnds(chars[i..]);
  }

  /** What `out` holds and what is left to read make the answer. */
  ghost predicate Remaining(chars: string, out: string, i: nat, q: Quote) {
    out + Strip(Drop(chars, i), q) == Strip(chars, Outside)
  }

  lemma Emit(chars: string, out: string, i: nat, q: Quote, x: string, j: nat, next: Quote)
    requires Remaining(chars, out, i, q)
    requires Strip(Drop(chars, i), q) == x + Strip(Drop(chars, j), next)
    ensures Remaining(chars, out + x, j, next)
  {
    hide Strip, Drop;
    Regroup(out, x, Strip(Drop(chars, j), next));
  }

  lemma PushCharacter(chars: string, out: string, i: nat, q: Quote)
    requires i < |chars| && (q.Outside? ==> !OpensLine(chars[i..]) && !OpensBlock(chars[i..]))
    requires Remaining(chars, out, i, q)
    ensures Remaining(chars, out + [chars[i]], i + 1, Next(q, chars[i]))
  {
    hide Strip, Next, Remaining, OpensLine, OpensBlock;
    UnfoldCharacter(chars[i..], q);
    assert chars[i..][1..] == chars[i + 1..];
    Emit(chars, out, i, q, [chars[i]], i + 1, Next(q, chars[i]));
  }

  lemma PassBlock(chars: string, out: string, i: nat)
    requires i < |chars| && OpensBlock(chars[i..])
    requires Remaining(chars, out, i, Outside)
    ensures var n := BlockLength(chars[i + 2..]);
      Remaining(chars, out + NewlinesOf(chars[i + 2..i + 2 + n]), i + n + 4, Outside)
  {
    hide Strip, NewlinesOf, BlockLength, Remaining;
    UnfoldBlock(chars[i..]);
    var n := BlockLength(chars[i + 2..]);
    assert Drop(chars, i) == chars[i..];
    hide Drop, OpensBlock;
    BlockSlices(chars, i, n);
    Emit(chars, out, i, Outside, NewlinesOf(chars[i + 2..i + 2 + n]), i + n + 4, Outside);
  }

  method StripComments(input: string) returns (out: string)
    ensures out == Strip(input, Outside)
  {
    hide Strip, Remaining, BlockLength, LineLength, NewlinesOf;
    var chars := input;
    var inString, escaped := false, false;
    var i: nat := 0;
    out := "";
    assert Remaining(chars, out, 0, Outside) by { Starts(chars); }
    while i < |chars|
      invariant !inString ==> !escaped
      invariant Remaining(chars, out, i, QuoteOf(inString, escaped))
    {
      var ch := chars[i];
      if inString {
        PushCharacter(chars, out, i, QuoteOf(inString, escaped));
        out := out + [ch];
        if escaped {
          escaped := false;
        } else if ch == '\\' {
          escaped := true;
        } else if ch == '"' {
          inString := false;
        }
        i := i + 1;
        continue;
      }
      if ch == '"' {
        PushCharacter(chars, out, i, Outside);
        inString := true;
        out := out + [ch];
        i := i + 1;
        continue;
      }
      if ch == '/' && i + 1 < |chars| && chars[i + 1] == '/' {
        StepLine(chars, i);
        SameAnswer(chars, out, i, i + 2 + LineLength(chars[i + 2..]));
        i := SkipLine(chars, i + 2);
        continue;
      }
      if ch == '/' && i + 1 < |chars| && chars[i + 1] == '*' {
        PassBlock(chars, out, i);
        i, out := SkipBlock(chars, i + 2, out);
        i := i + 2;
        continue;
      }
      PushCharacter(chars, out, i, Outside);
      out := out + [ch];
      i := i + 1;
    }
    Ends(chars, out, i, QuoteOf(inString, escaped));
  }

  lemma Starts(chars: string)
    ensures Remaining(chars, "", 0, Outside)
  {
    assert Drop(chars, 0) == chars;
  }

  lemma SameAnswer(chars: string, out: string, i: nat, j: nat)
    requires i <= |chars| && j <= |chars| && Strip(chars[i..], Outside) == Strip(chars[j..], Outside)
    requires Remaining(chars, out, i, Outside)
    ensures Remaining(chars, out, j, Outside)
  {
  }

  lemma Ends(chars: string, out: string, i: nat, q: Quote)
    requires i >= |chars| && Remaining(chars, out, i, q)
    ensures out == Strip(chars, Outside)
  {
    assert Drop(chars, i) == [];
  }

  // ----- the text as a list of segments ------------------------------------------------------------

  /** What a reader of the language sees: strings, comments and single characters. A string or a block
      comment that runs to the end of the text is not closed. */
  datatype Segment =
    | Plain(c: char)
    | Quoted(body: string, closed: bool)
    | LineComment(body: string)
    | BlockComment(body: string, closed: bool)

  /** Length of a string body: up to the first unescaped quote, or to the end. */
  function QuotedLength(s: string, escaped: bool): (n: nat)
    ensures n <= |s|
    ensures n < |s| ==> s[n] == '"'
  {
    if s == [] || (!escaped && s[0] == '"') then 0
    else 1 + QuotedLength(s[1..], !escaped && s[0] == '\\')
  }

  function FirstSegment(s: string): Segment
    requires s != []
  {
    if s[0] == '"' then
      var n := QuotedLength(s[1..], false);
      Quoted(s[1..1 + n], 1 + n < |s|)
    else if OpensLine(s) then LineComment(s[2..2 + LineLength(s[2..])])
    else if OpensBlock(s) then
      var n := BlockLength(s[2..]);
      BlockComment(s[2..2 + n], 2 + n < |s|)
    else Plain(s[0])
  }

  function Source(g: Segment): (text: string)
    ensures text != []
  {
    match g
    case Plain(c) => [c]
    case Quoted(body, closed) => "\"" + body + (if closed then "\"" else "")
    case LineComment(body) => "//" + body
    case BlockComment(body, closed) => "/*" + body + (if closed then "*/" else "")
  }

  function Sources(gs: seq<Segment>): string {
    if gs == [] then [] else Source(gs[0]) + Sources(gs[1..])
  }

  /** What follows the first segment. */
  function Rest(s: string): (r: string)
    requires s != []
    ensures |r| < |s|
  {
    match FirstSegment(s)
    case Quoted(body, _) => Drop(s, |body| + 2)
    case LineComment(body) => s[|body| + 2..]
    case BlockComment(body, _) => Drop(s, |body| + 4)
    case Plain(_) => s[1..]
  }

  function Scan(s: string): seq<Segment>
    decreases |s|
  {
    if s == [] then [] else [FirstSegment(s)] + Scan(Rest(s))
  }

  lemma Split3(s: string, i: nat, j: nat)
    requires i <= j <= |s|
    ensures s == s[..i] + s[i..j] + s[j..]
  {
  }

  lemma QuotedAndRest(s: string)
    requires s != [] && s[0] == '"'
    ensures s == Source(FirstSegment(s)) + Rest(s)
  {
    var n := QuotedLength(s[1..], false);
    Split3(s, 1, 1 + n);
    assert s[..1] == "\"";
    if 1 + n < |s| {
      assert s[1..][n] == '"';
      assert s[1 + n..] == "\"" + s[n + 2..];
      Regroup(s[..1] + s[1..1 + n], "\"", s[n + 2..]);
    }
  }

  lemma BlockAndRest(s: string)
    requires OpensBlock(s)
    ensures s == Source(FirstSegment(s)) + Rest(s)
  {
    var n := BlockLength(s[2..]);
    Split3(s, 2, 2 + n);
    assert s[..2] == "/*";
    if 2 + n < |s| {
      assert ClosesBlock(s[2..][n..]);
      assert s[2..][n..] == s[2 + n..];
      assert s[2 + n..] == "*/" + s[n + 4..];
      Regroup(s[..2] + s[2..2 + n], "*/", s[n + 4..]);
    }
  }

  lemma FirstAndRest(s: string)
    requires s != []
    ensures s == Source(FirstSegment(s)) + Rest(s)
  {
    if s[0] == '"' {
      QuotedAndRest(s);
    } else if OpensLine(s) {
      Split3(s, 2, 2 + LineLength(s[2..]));
      assert s[..2] == "//";
    } else if OpensBlock(s) {
      BlockAndRest(s);
    }
  }

  /** Reading into segments loses nothing. */
  lemma {:induction false} ScanIsFaithful(s: string)
    ensures Sources(Scan(s)) == s
    decreases |s|
  {
    hide FirstSegment, Source, Rest;
    if s == [] {
    } else {
      ScanIsFaithful(Rest(s));
      assert Scan(s)[1..] == Scan(Rest(s));
      FirstAndRest(s);
    }
  }

  /** What survives of a segment: comments vanish but for the newlines of a block. */
  function Kept(g: Segment): string {
    match g
    case LineComment(_) => ""
    case BlockComment(body, _) => NewlinesOf(body)
    case _ => Source(g)
  }

  function KeptAll(gs: seq<Segment>): string {
    if gs == [] then [] else Kept(gs[0]) + KeptAll(gs[1..])
  }

  lemma StringGoesOn(s: string, escaped: bool)
    requires s != [] && (escaped || s[0] != '"')
    ensures var e := !escaped && s[0] == '\\';
      && QuotedLength(s, escaped) == QuotedLength(s[1..], e) + 1
      && Strip(s, Inside(escaped)) == [s[0]] + Strip(s[1..], Inside(e))
  {
    UnfoldCharacter(s, Inside(escaped));
  }

  /** The text copied through position `n`, or to its end. */
  function Copied(s: string, n: nat): string {
    if n < |s| then s[..n + 1] + Strip(s[n + 1..], Outside) else s
  }

  lemma CopiedFurther(s: string, n: nat)
    requires s != []
    ensures [s[0]] + Copied(s[1..], n) == Copied(s, n + 1)
  {
    hide Strip;
    if n < |s| - 1 {
      assert [s[0]] + s[1..][..n + 1] == s[..n + 2] && s[1..][n + 1..] == s[n + 2..];
      Regroup([s[0]], s[1..][..n + 1], Strip(s[n + 2..], Outside));
    } else {
      assert s == [s[0]] + s[1..];
    }
  }

  /** A string is copied through its closing quote, or to the end of the text. */
  lemma {:induction false} StripString(s: string, escaped: bool)
    ensures Strip(s, Inside(escaped)) == Copied(s, QuotedLength(s, escaped))
  {
    if s == [] {
    } else if !escaped && s[0] == '"' {
      UnfoldCharacter(s, Inside(escaped));
      assert s[..1] == [s[0]];
    } else {
      var e := !escaped && s[0] == '\\';
      StringGoesOn(s, escaped);
      hide Strip, QuotedLength, Copied;
      StripString(s[1..], e);
      CopiedFurther(s, QuotedLength(s[1..], e));
    }
  }

  lemma QuotedParts(s: string)
    requires s != [] && s[0] == '"'
    ensures var n := QuotedLength(s[1..], false);
      if n < |s[1..]| then Source(FirstSegment(s)) == [s[0]] + s[1..][..n + 1] && Rest(s) == s[1..][n + 1..]
      else Source(FirstSegment(s)) == [s[0]] + s[1..] && Rest(s) == []
  {
    var n := QuotedLength(s[1..], false);
    hide QuotedLength;
    if n < |s[1..]| {
      assert s[1..][n] == '"';
      assert s[1..][..n + 1] == s[1..1 + n] + "\"";
      Regroup([s[0]], s[1..1 + n], "\"");
    }
  }

  lemma QuotedCopied(s: string)
    requires s != [] && s[0] == '"'
    ensures [s[0]] + Copied(s[1..], QuotedLength(s[1..], false)) == Source(FirstSegment(s)) + Strip(Rest(s), Outside)
  {
    hide Strip, QuotedLength, Source, FirstSegment, Rest;
    var tail := s[1..];
    var n := QuotedLength(tail, false);
    QuotedParts(s);
    EmptyStrip([]);
    if n < |tail| {
      Regroup([s[0]], tail[..n + 1], Strip(tail[n + 1..], Outside));
    }
  }

  lemma StripQuoted(s: string)
    requires s != [] && s[0] == '"'
    ensures Strip(s, Outside) == Source(FirstSegment(s)) + Strip(Rest(s), Outside)
  {
    hide Strip, QuotedLength, Source, FirstSegment, Rest, Copied;
    UnfoldCharacter(s, Outside);
    StripString(s[1..], false);
    QuotedCopied(s);
  }

  lemma EmptyStrip(s: string)
    requires s == []
    ensures Strip(s, Outside) == []
  {
  }

  /** One segment at a time. */
  lemma StripSegment(s: string)
    requires s != []
    ensures Strip(s, Outside) == Kept(FirstSegment(s)) + Strip(Rest(s), Outside)
  {
    hide Strip, BlockLength, LineLength, QuotedLength, NewlinesOf;
    if s[0] == '"' {
      StripQuoted(s);
    } else if OpensLine(s) {
      UnfoldLine(s);
    } else if OpensBlock(s) {
      UnfoldBlock(s);
    } else {
      UnfoldCharacter(s, Outside);
    }
  }

  /** The character scanner keeps exactly the segments that are not comments, and the newlines of blocks. */
  lemma {:induction false} StripKeepsSegments(s: string)
    ensures Strip(s, Outside) == KeptAll(Scan(s))
    decreases |s|
  {
    hide FirstSegment, Kept, Rest;
    if s == [] {
    } else {
      StripSegment(s);
      StripKeepsSegments(Rest(s));
      assert Scan(s)[1..] == Scan(Rest(s));
    }
  }

  // ----- the stripped text, read again -------------------------------------------------------------

  function Plains(s: string): seq<Segment> {
    if s == [] then [] else [Plain(s[0])] + Plains(s[1..])
  }

  /** How a kept segment reads in the stripped text. */
  function Surviving(g: Segment): seq<Segment> {
    match g
    case LineComment(_) => []
    case BlockComment(body, _) => Plains(NewlinesOf(body))
    case _ => [g]
  }

  function SurvivingAll(gs: seq<Segment>): seq<Segment> {
    if gs == [] then [] else Surviving(gs[0]) + SurvivingAll(gs[1..])
  }

  lemma {:induction false} QuotedLengthIsLocal(a: string, b: string, escaped: bool)
    requires var n := QuotedLength(a, escaped); n < |a| && n < |b| && a[..n + 1] == b[..n + 1]
    ensures QuotedLength(b, escaped) == QuotedLength(a, escaped)
  {
    var n := QuotedLength(a, escaped);
    assert b[0] == b[..n + 1][0] == a[0];
    if n == 0 {
    } else {
      assert a[1..][..n] == a[..n + 1][1..] && b[1..][..n] == b[..n + 1][1..];
      QuotedLengthIsLocal(a[1..], b[1..], !escaped && a[0] == '\\');
    }
  }

  lemma QuotedReadsBack(s: string, k: string)
    requires s != [] && s[0] == '"' && FirstSegment(s).closed
    ensures var t := Source(FirstSegment(s)) + k;
      t != [] && FirstSegment(t) == FirstSegment(s) && Rest(t) == k
  {
    var body := FirstSegment(s).body;
    var t := "\"" + body + "\"" + k;
    assert t[1..][..|body| + 1] == body + "\"";
    assert s[1..][|body|] == '"' && s[1..][..|body|] == body;
    assert s[1..][..|body| + 1] == body + "\"";
    QuotedLengthIsLocal(s[1..], t[1..], false);
    assert t[1..1 + |body|] == body;
    assert t[|body| + 2..] == k;
  }

  /** A slash outside a comment is never joined to another slash or a star. */
  lemma PlainReadsBack(s: string)
    requires s != [] && FirstSegment(s).Plain?
    ensures var t := [s[0]] + Strip(Rest(s), Outside);
      FirstSegment(t) == FirstSegment(s) && Rest(t) == Strip(Rest(s), Outside)
  {
    var r := Rest(s);
    var k := Strip(r, Outside);
    var t := [s[0]] + k;
    assert t[1..] == k;
    if r != [] && r[0] != '/' {
      assert k[0] == r[0];
    }
  }

  lemma {:induction false} NewlinesReadBack(body: string, k: string)
    ensures Scan(NewlinesOf(body) + k) == Plains(NewlinesOf(body)) + Scan(k)
  {
    if body == [] {
      assert NewlinesOf(body) + k == k;
    } else {
      NewlinesReadBack(body[1..], k);
      if body[0] == '\n' {
        NewlineReadsBack(NewlinesOf(body[1..]), k);
      } else {
        assert NewlinesOf(body) == NewlinesOf(body[1..]);
      }
    }
  }

  lemma ScanStep(s: string)
    requires s != []
    ensures Scan(s) == [FirstSegment(s)] + Scan(Rest(s))
  {
  }

  lemma PlainsStep(c: char, s: string)
    ensures Plains([c] + s) == [Plain(c)] + Plains(s)
  {
    assert ([c] + s)[1..] == s;
  }

  lemma NewlineReadsBack(ns: string, k: string)
    requires Scan(ns + k) == Plains(ns) + Scan(k)
    ensures Scan("\n" + ns + k) == Plains("\n" + ns) + Scan(k)
  {
    hide Scan, Plains;
    var t := "\n" + ns + k;
    assert FirstSegment(t) == Plain('\n');
    assert Rest(t) == ns + k;
    ScanStep(t);
    PlainsStep('\n', ns);
    Regroup([Plain('\n')], Plains(ns), Scan(k));
  }

  lemma SurvivingStep(s: string)
    requires s != []
    ensures SurvivingAll(Scan(s)) == Surviving(FirstSegment(s)) + SurvivingAll(Scan(Rest(s)))
  {
    assert Scan(s)[1..] == Scan(Rest(s));
  }

  lemma UnclosedString(s: string)
    requires s != [] && FirstSegment(s).Quoted? && !FirstSegment(s).closed
    ensures Source(FirstSegment(s)) == s && Rest(s) == []
  {
    FirstAndRest(s);
  }

  /** Reading the stripped text gives the segments that survive: nothing is joined and nothing is split. */
  lemma {:induction false} ScanOfStripped(s: string)
    ensures Scan(Strip(s, Outside)) == SurvivingAll(Scan(s))
    decreases |s|
  {
    hide FirstSegment, Rest, Strip, SurvivingAll, Scan;
    if s == [] {
      EmptyText(s);
    } else {
      var g, k := FirstSegment(s), Strip(Rest(s), Outside);
      ScanOfStripped(Rest(s));
      SurvivingStep(s);
      StripSegment(s);
      match g
      case Plain(_) =>
        FirstIsHead(s);
        PlainReadsBack(s);
        ScanStep([s[0]] + k);
      case LineComment(_) =>
        assert Strip(s, Outside) == k;
      case BlockComment(body, _) =>
        NewlinesReadBack(body, k);
      case Quoted(_, closed) =>
        FirstIsHead(s);
        if closed {
          QuotedReadsBack(s, k);
          ScanStep(Source(g) + k);
        } else {
          UnclosedString(s);
          EmptyText(Rest(s));
          assert Source(g) + k == s;
          ScanStep(s);
        }
    }
  }

  lemma FirstIsHead(s: string)
    requires s != []
    ensures FirstSegment(s).Plain? ==> FirstSegment(s) == Plain(s[0])
    ensures FirstSegment(s).Quoted? ==> s[0] == '"'
  {
  }

  lemma EmptyText(s: string)
    requires s == []
    ensures Strip(s, Outside) == [] && Scan(s) == [] && SurvivingAll(Scan(s)) == []
  {
  }

  // ----- what stripping promises -------------------------------------------------------------------

  function Strings(gs: seq<Segment>): seq<Segment> {
    if gs == [] then [] else (if gs[0].Quoted? then [gs[0]] else []) + Strings(gs[1..])
  }

  predicate NoComments(gs: seq<Segment>) {
    gs == [] || (!gs[0].LineComment? && !gs[0].BlockComment? && NoComments(gs[1..]))
  }

  lemma {:induction false} PlainsAre(s: string, gs: seq<Segment>)
    ensures NoComments(Plains(s) + gs) == NoComments(gs)
    ensures Strings(Plains(s) + gs) == Strings(gs)
  {
    if s == [] {
      assert Plains(s) + gs == gs;
    } else {
      assert (Plains(s) + gs)[1..] == Plains(s[1..]) + gs;
      PlainsAre(s[1..], gs);
    }
  }

  lemma {:induction false} SurvivorsAre(gs: seq<Segment>)
    ensures NoComments(SurvivingAll(gs)) && Strings(SurvivingAll(gs)) == Strings(gs)
  {
    if gs == [] {
    } else {
      SurvivorsAre(gs[1..]);
      match gs[0]
      case LineComment(_) => assert SurvivingAll(gs) == SurvivingAll(gs[1..]);
      case BlockComment(body, _) => PlainsAre(NewlinesOf(body), SurvivingAll(gs[1..]));
      case _ => assert SurvivingAll(gs)[1..] == SurvivingAll(gs[1..]);
    }
  }

  lemma {:induction false} NewlinesConcat(a: string, b: string)
    ensures NewlinesOf(a + b) == NewlinesOf(a) + NewlinesOf(b)
  {
    if a == [] {
      assert a + b == b;
    } else {
      NewlinesHead(a[0], a[1..] + b);
      NewlinesHead(a[0], a[1..]);
      assert a + b == [a[0]] + (a[1..] + b) && a == [a[0]] + a[1..];
      NewlinesConcat(a[1..], b);
      hide NewlinesOf;
      Regroup(if a[0] == '\n' then "\n" else "", NewlinesOf(a[1..]), NewlinesOf(b));
    }
  }

  lemma NewlinesHead(c: char, s: string)
    ensures NewlinesOf([c] + s) == (if c == '\n' then "\n" else "") + NewlinesOf(s)
  {
    assert ([c] + s)[1..] == s;
  }

  lemma {:induction false} NewlinesTwice(s: string)
    ensures NewlinesOf(NewlinesOf(s)) == NewlinesOf(s)
  {
    if s == [] {
    } else {
      NewlinesTwice(s[1..]);
      if s[0] == '\n' {
        assert NewlinesOf(s) == ['\n'] + NewlinesOf(s[1..]);
        NewlinesHead('\n', NewlinesOf(s[1..]));
      } else {
        assert NewlinesOf(s) == NewlinesOf(s[1..]);
      }
    }
  }

  lemma {:induction false} LineHasNoNewline(s: string)
    ensures NewlinesOf(s[..LineLength(s)]) == []
  {
    if LineLength(s) == 0 {
      assert s[..0] == [];
    } else {
      LineHasNoNewline(s[1..]);
      assert s[..LineLength(s)] == [s[0]] + s[1..][..LineLength(s[1..])];
      NewlinesHead(s[0], s[1..][..LineLength(s[1..])]);
    }
  }

  lemma KeptKeepsNewlines(s: string)
    requires s != []
    ensures NewlinesOf(Kept(FirstSegment(s))) == NewlinesOf(Source(FirstSegment(s)))
  {
    match FirstSegment(s)
    case LineComment(body) =>
      LineHasNoNewline(s[2..]);
      assert s[2..][..|body|] == body;
      NewlinesConcat("//", body);
      NoNewlinesIn("//");
    case BlockComment(body, closed) =>
      NewlinesTwice(body);
      NewlinesConcat("/*", body);
      NewlinesConcat("/*" + body, if closed then "*/" else "");
      NoNewlinesIn("/*");
      NoNewlinesIn(if closed then "*/" else "");
    case Plain(_) =>
    case Quoted(_, _) =>
  }

  lemma {:induction false} NoNewlinesIn(s: string)
    requires '\n' !in s
    ensures NewlinesOf(s) == []
  {
    if s == [] {
    } else {
      NoNewlinesIn(s[1..]);
    }
  }

  lemma {:induction false} NewlinesSurvive(s: string)
    ensures NewlinesOf(Strip(s, Outside)) == NewlinesOf(s)
    decreases |s|
  {
    hide Strip, FirstSegment, Rest, Kept, Source, NewlinesOf;
    if s == [] {
      EmptyText(s);
    } else {
      NewlinesSurvive(Rest(s));
      StripSegment(s);
      FirstAndRest(s);
      KeptKeepsNewlines(s);
      NewlinesConcat(Kept(FirstSegment(s)), Strip(Rest(s), Outside));
      NewlinesConcat(Source(FirstSegment(s)), Rest(s));
    }
  }

  lemma {:induction false} KeptOfFree(gs: seq<Segment>)
    requires NoComments(gs)
    ensures KeptAll(gs) == Sources(gs)
  {
    if gs == [] {
    } else {
      KeptOfFree(gs[1..]);
    }
  }

  /** Main result. Stripping leaves no comment, keeps every string literal (one that is never closed
      included) and every newline, and its fixed points are exactly the texts without comments; so a second
      pass changes nothing. */
  lemma StrippedTextIs(s: string)
    ensures var t := Strip(s, Outside);
      && NoComments(Scan(t)) && Strings(Scan(t)) == Strings(Scan(s)) && NewlinesOf(t) == NewlinesOf(s)
      && (t == s <==> NoComments(Scan(s)))
      && Strip(t, Outside) == t
  {
    hide Scan, Strip, Strings, NoComments, SurvivingAll;
    var t := Strip(s, Outside);
    ScanOfStripped(s);
    SurvivorsAre(Scan(s));
    NewlinesSurvive(s);
    FreeIsFixed(t);
    if NoComments(Scan(s)) { FreeIsFixed(s); }
  }

  lemma FreeIsFixed(s: string)
    requires NoComments(Scan(s))
    ensures Strip(s, Outside) == s
  {
    StripKeepsSegments(s);
    KeptOfFree(Scan(s));
    ScanIsFaithful(s);
  }

  // ----- what removal joins ------------------------------------------------------------------------

  /** A comment that leaves nothing behind. */
  predicate Vanishes(g: Segment) {
    g.LineComment? || (g.BlockComment? && '\n' !in g.body)
  }

  predicate Stays(g: Segment) {
    g.Plain? || g.Quoted?
  }

  /** Where segment `i` of a text stands in the stripped text's segments. */
  function Place(gs: seq<Segment>, i: nat): nat
    requires i <= |gs|
  {
    |SurvivingAll(gs[..i])|
  }

  lemma {:induction false} SurvivingConcat(a: seq<Segment>, b: seq<Segment>)
    ensures SurvivingAll(a + b) == SurvivingAll(a) + SurvivingAll(b)
  {
    hide Surviving;
    if a == [] {
      assert a + b == b;
    } else {
      assert (a + b)[1..] == a[1..] + b;
      SurvivingConcat(a[1..], b);
      Regroup(Surviving(a[0]), SurvivingAll(a[1..]), SurvivingAll(b));
    }
  }

  lemma {:induction false} NewlineLeaves(s: string)
    ensures NewlinesOf(s) == [] <==> '\n' !in s
  {
    if s == [] {
    } else {
      NewlineLeaves(s[1..]);
      assert s == [s[0]] + s[1..];
    }
  }

  lemma NothingSurvivesIff(g: Segment)
    ensures Surviving(g) == [] <==> Vanishes(g)
  {
    if g.BlockComment? { NewlineLeaves(g.body); }
  }

  lemma {:induction false} NoneSurviveIff(gs: seq<Segment>)
    ensures SurvivingAll(gs) == [] <==> forall k :: 0 <= k < |gs| ==> Vanishes(gs[k])
  {
    hide Surviving, Vanishes;
    if gs == [] {
    } else {
      NoneSurviveIff(gs[1..]);
      NothingSurvivesIff(gs[0]);
      assert forall k :: 0 < k < |gs| ==> gs[k] == gs[1..][k - 1];
      assert forall k :: 0 <= k < |gs| - 1 ==> gs[1..][k] == gs[k + 1];
    }
  }

  /** A segment that stays stands at its place in the segments of the stripped text. */
  lemma StaysAtPlace(gs: seq<Segment>, i: nat)
    requires i < |gs| && Stays(gs[i])
    ensures Place(gs, i) < |SurvivingAll(gs)| && SurvivingAll(gs)[Place(gs, i)] == gs[i]
    ensures Place(gs, i + 1) == Place(gs, i) + 1
  {
    assert gs == gs[..i + 1] + gs[i + 1..] && gs[..i + 1] == gs[..i] + [gs[i]];
    SurvivingConcat(gs[..i + 1], gs[i + 1..]);
    SurvivingConcat(gs[..i], [gs[i]]);
    assert [gs[i]][1..] == [];
    assert SurvivingAll([gs[i]]) == [gs[i]];
  }

  /** Two segments that stay, `i` before `j`, come to stand side by side in the stripped text exactly when all that
      stands between them is comments without a newline: so stripping joins what such a run, not empty, kept
      apart, and nothing else. */
  lemma JoinedIffVanishingBetween(s: string, i: nat, j: nat)
    requires i < j < |Scan(s)| && Stays(Scan(s)[i]) && Stays(Scan(s)[j])
    ensures var gs, out := Scan(s), Scan(Strip(s, Outside));
      && Place(gs, i) < Place(gs, j) < |out| && out[Place(gs, i)] == gs[i] && out[Place(gs, j)] == gs[j]
      && (Place(gs, j) == Place(gs, i) + 1 <==> forall k :: i < k < j ==> Vanishes(gs[k]))
  {
    hide Scan, Strip, SurvivingAll, Stays, Vanishes;
    var gs := Scan(s);
    ScanOfStripped(s);
    StaysAtPlace(gs, i);
    StaysAtPlace(gs, j);
    var between := gs[i + 1..j];
    assert gs[..j] == gs[..i + 1] + between;
    SurvivingConcat(gs[..i + 1], between);
    NoneSurviveIff(between);
    assert forall k :: i < k < j ==> gs[k] == between[k - i - 1];
    assert forall k :: 0 <= k < |between| ==> between[k] == gs[k + i + 1];
  }

  /** Characters are not tokens: what a comment separated can read as one. */
  lemma CommentsCanSeparate()
    ensures Strip("1/**/2", Outside) == "12"
  {
    var s := "1/**/2";
    assert s[1..] == "/**/2" && s[1..][2..] == "*/2" && ClosesBlock("*/2");
    assert Strip(s[1..], Outside) == NewlinesOf("") + Strip("2", Outside) by {
      assert Drop(s[1..], 4) == "2";
    }
    assert "2"[1..] == "";
  }
}
