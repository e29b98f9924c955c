/** The two passes rule by rule: what each does with a comment, a string, a comma and any other character that stands
    first in what is left of a text. */
module JsoncRules {
  import opened Jsonc
  import opened JsonReading
  import opened Sequences
  import opened TrailingCommas

  // ----- comments ----------------------------------------------------------------------------------

  lemma {:induction false} LineRunsToItsEnd(c: string, rest: string)
    requires '\n' !in c && '\r' !in c && (rest == [] || rest[0] == '\n' || rest[0] == '\r')
    ensures LineLength(c + rest) == |c|
  {
    if c == [] {
      assert c + rest == rest;
    } else {
      assert c == [c[0]] + c[1..] && (c + rest)[1..] == c[1..] + rest;
      LineRunsToItsEnd(c[1..], rest);
    }
  }

  /** A line comment vanishes up to, and not including, the end of its line. */
  lemma LineCommentGoes(c: string, rest: string)
    requires '\n' !in c && '\r' !in c && (rest == [] || rest[0] == '\n' || rest[0] == '\r')
    ensures Strip("//" + c + rest, Outside) == Strip(rest, Outside)
  {
    var s := "//" + c + rest;
    assert s[2..] == c + rest && s[2 + |c|..] == rest;
    LineRunsToItsEnd(c, rest);
    hide Strip, LineLength;
    UnfoldLine(s);
  }

  lemma {:induction false} BlockRunsToItsEnd(c: string, rest: string)
    requires forall i :: 0 <= i <= |c| ==> !("*/" <= c[i..])
    ensures BlockLength(c + "*/" + rest) == |c| && BlockLength(c) == |c|
  {
    var s := c + "*/" + rest;
    if c == [] {
      assert ClosesBlock(s);
    } else {
      assert s[1..] == c[1..] + "*/" + rest;
      assert s[1] == if |c| > 1 then c[1] else '*';
      forall i | 0 <= i <= |c| - 1 ensures !("*/" <= c[1..][i..]) {
        assert c[1..][i..] == c[i + 1..];
      }
      BlockRunsToItsEnd(c[1..], rest);
      assert !("*/" <= c[0..]) && c[0..] == c;
      assert !ClosesBlock(c) && !ClosesBlock(s);
    }
  }

  /** A block comment vanishes up to the first closing mark after its opening, but for its newlines. */
  lemma BlockCommentGoes(c: string, rest: string)
    requires forall i :: 0 <= i <= |c| ==> !("*/" <= c[i..])
    ensures Strip("/*" + c + "*/" + rest, Outside) == NewlinesOf(c) + Strip(rest, Outside)
  {
    var s := "/*" + c + "*/" + rest;
    assert s[2..] == c + "*/" + rest && s[2..2 + |c|] == c && Drop(s, |c| + 4) == rest;
    BlockRunsToItsEnd(c, rest);
    hide Strip, BlockLength, NewlinesOf;
    UnfoldBlock(s);
  }

  /** Without one, it runs to the end of the text. */
  lemma OpenBlockCommentGoes(c: string)
    requires forall i :: 0 <= i <= |c| ==> !("*/" <= c[i..])
    ensures Strip("/*" + c, Outside) == NewlinesOf(c)
  {
    hide Strip, BlockLength, NewlinesOf, Drop;
    var s := "/*" + c;
    BlockOpensWith(c);
    BlockRunsToItsEnd(c, []);
    NothingIsLeft(s, |c| + 4);
    UnfoldBlock(s);
    assert NewlinesOf(c) + [] == NewlinesOf(c);
  }

  lemma BlockOpensWith(c: string)
    ensures var s := "/*" + c; OpensBlock(s) && s[2..] == c && s[2..2 + |c|] == c
  {
  }

  lemma NothingIsLeft(s: string, n: nat)
    requires n > |s|
    ensures Strip(Drop(s, n), Outside) == []
  {
  }

  /** Each newline is kept as one newline. */
  lemma {:induction false} NewlinesAreKept(c: string)
    ensures NewlinesOf(c) == seq(multiset(c)['\n'], _ => '\n')
  {
    if c == [] {
    } else {
      assert c == [c[0]] + c[1..];
      NewlinesAreKept(c[1..]);
    }
  }

  // ----- everything else ---------------------------------------------------------------------------

  /** What can stand between two quotes: characters other than quote and backslash, and backslashes each followed by
      any character. */
  ghost predicate StringBody(b: string) {
    || b == []
    || (b[0] != '"' && b[0] != '\\' && StringBody(b[1..]))
    || (b[0] == '\\' && |b| >= 2 && StringBody(b[2..]))
  }

  lemma {:induction false} BodyRunsToItsQuote(b: string, rest: string)
    requires StringBody(b)
    ensures QuotedLength(b + "\"" + rest, false) == |b|
    decreases |b|
  {
    var s := b + "\"" + rest;
    if b == [] {
    } else if b[0] != '\\' {
      assert s[1..] == b[1..] + "\"" + rest;
      BodyRunsToItsQuote(b[1..], rest);
    } else {
      assert s[1..][1..] == b[2..] + "\"" + rest;
      BodyRunsToItsQuote(b[2..], rest);
    }
  }

  /** A string is copied, whatever it holds, and what follows it is read outside strings again. */
  lemma StringStays(b: string, rest: string)
    requires StringBody(b)
    ensures Strip("\"" + b + "\"" + rest, Outside) == "\"" + b + "\"" + Strip(rest, Outside)
  {
    hide Strip, QuotedLength, Copied;
    var s, tail := "\"" + b + "\"" + rest, b + "\"" + rest;
    assert s[1..] == tail;
    UnfoldCharacter(s, Outside);
    StripString(tail, false);
    BodyRunsToItsQuote(b, rest);
    CopiedToQuote(b, rest);
    assert ['"'] + (b + "\"" + Strip(rest, Outside)) == "\"" + b + "\"" + Strip(rest, Outside);
  }

  lemma CopiedToQuote(b: string, rest: string)
    ensures Copied(b + "\"" + rest, |b|) == b + "\"" + Strip(rest, Outside)
  {
    hide Strip;
    var s := b + "\"" + rest;
    assert s[..|b| + 1] == b + "\"" && s[|b| + 1..] == rest;
  }

  /** Any other character is copied. */
  lemma CharacterStays(c: char, rest: string)
    requires c != '"' && (c == '/' ==> rest == [] || (rest[0] != '/' && rest[0] != '*'))
    ensures Strip([c] + rest, Outside) == [c] + Strip(rest, Outside)
  {
    var s := [c] + rest;
    assert s[1..] == rest;
    UnfoldCharacter(s, Outside);
  }

  // ----- trailing commas ---------------------------------------------------------------------------

  lemma {:induction false} WhiteIsSkipped(w: string, c: char, rest: string, white: char -> bool)
    requires !white(c) && forall i :: 0 <= i < |w| ==> white(w[i])
    ensures NextInk(w + [c] + rest, 0, white) == |w|
    decreases |w|
  {
    var s := w + [c] + rest;
    if w == [] {
    } else {
      assert s[1..] == w[1..] + [c] + rest;
      WhiteIsSkipped(w[1..], c, rest, white);
      NextInkTail(s, 1, 0, white);
    }
  }

  /** A comma becomes a space exactly when the first character after it that is not white space is a closing brace or
      bracket. */
  lemma CommaGoesIff(w: string, c: char, rest: string, white: char -> bool)
    requires !white(c) && forall i :: 0 <= i < |w| ==> white(w[i])
    ensures Blanked("," + w + [c] + rest, white)
         == (if c == '}' || c == ']' then " " else ",") + Blanked(w + [c] + rest, white)
  {
    var s := "," + w + [c] + rest;
    var tail := w + [c] + rest;
    assert s[1..] == tail;
    WhiteIsSkipped(w, c, rest, white);
    NextInkTail(s, 1, 0, white);
    assert QuoteAt(s, 1) == Next(QuoteAt(s, 0), s[0]);
    BlankedTail(s, 1, white);
    assert Blanked(s, white) == [Blanked(s, white)[0]] + Blanked(s, white)[1..];
    assert s[1 + |w|] == c;
  }

  /** A comma with nothing but white space after it stays. */
  lemma LastCommaStays(w: string, white: char -> bool)
    requires forall i :: 0 <= i < |w| ==> white(w[i])
    ensures Blanked("," + w, white)[0] == ','
  {
    var s := "," + w;
    assert forall i :: 1 <= i < |s| ==> s[i] == w[i - 1];
  }

  /** Every other character outside strings stays. */
  lemma OtherCharacterStays(c: char, rest: string, white: char -> bool)
    requires c != '"' && c != ','
    ensures Blanked([c] + rest, white) == [c] + Blanked(rest, white)
  {
    var s := [c] + rest;
    assert s[1..] == rest;
    assert QuoteAt(s, 1) == Next(QuoteAt(s, 0), s[0]);
    BlankedTail(s, 1, white);
    assert Blanked(s, white) == [Blanked(s, white)[0]] + Blanked(s, white)[1..];
  }

  lemma InsideString(b: string, rest: string, k: nat)
    requires StringBody(b) && 1 <= k <= |b| + 2
    ensures var s := "\"" + b + "\"" + rest;
      if k <= |b| + 1 then QuoteAt(s, k).Inside? else QuoteAt(s, k) == Outside
  {
    var s, n := "\"" + b + "\"" + rest, |b|;
    assert s[1..] == b + "\"" + rest;
    BodyRunsToItsQuote(b, rest);
    if k <= n + 1 {
      InsideBody(s, k - 1);
    } else {
      InsideBody(s, n);
      hide QuotedLength, StringBody;
      ClosingQuote(s[1 + n..], QuoteAt(s, 1 + n).escaped);
      QuoteStep(s, n + 1);
    }
  }

  /** A string stays, commas and all. */
  lemma StringIsNotBlanked(b: string, rest: string, white: char -> bool)
    requires StringBody(b)
    ensures Blanked("\"" + b + "\"" + rest, white) == "\"" + b + "\"" + Blanked(rest, white)
  {
    hide QuoteAt, StringBody, NextInk;
    var s, n := "\"" + b + "\"" + rest, |b|;
    var t := Blanked(s, white);
    assert s[n + 2..] == rest && s[..n + 2] == "\"" + b + "\"";
    InsideString(b, rest, n + 2);
    BlankedTail(s, n + 2, white);
    forall i | 0 <= i < n + 2 ensures t[i] == s[i] {
      if i > 0 { InsideString(b, rest, i); }
    }
    assert t[..n + 2] == s[..n + 2];
    assert t == t[..n + 2] + t[n + 2..];
  }
}
