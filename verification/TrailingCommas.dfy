/** The second pass, which blanks trailing commas in place, and the two passes together. */
module TrailingCommas {
  import opened Jsonc

  /** The text class of white space; only its value on these characters matters. */
  ghost predicate Proper(white: char -> bool) {
    white(' ') && !white(',') && !white('}') && !white(']') && !white('"')
  }

  /** Whether position `i` of a text without comments lies in a string. */
  function QuoteAt(s: string, i: nat): Quote
    requires i <= |s|
  {
    if i == 0 then Outside else Next(QuoteAt(s, i - 1), s[i - 1])
  }

  /** First position from `j` on that is not white space. */
  function NextInk(s: string, j: nat, white: char -> bool): (k: nat)
    requires j <= |s|
    ensures j <= k <= |s| && (k < |s| ==> !white(s[k]))
    decreases |s| - j
  {
    if j == |s| || !white(s[j]) then j else NextInk(s, j + 1, white)
  }

  predicate CommaAt(s: string, i: nat) {
    i < |s| && s[i] == ',' && QuoteAt(s, i) == Outside
  }

  predicate Closes(s: string, j: nat) {
    j < |s| && (s[j] == '}' || s[j] == ']')
  }

  /** A comma outside strings whose next character, white space apart, closes an object or array. */
  predicate Trailing(s: string, i: nat, white: char -> bool) {
    CommaAt(s, i) && Closes(s, NextInk(s, i + 1, white))
  }

  function Blanked(s: string, white: char -> bool): (t: string)
    ensures |t| == |s|
  {
    seq(|s|, i requires 0 <= i < |s| => if Trailing(s, i, white) then ' ' else s[i])
  }

  method StripTrailingCommas(chars: array<char>, white: char -> bool)
    modifies chars
    ensures chars[..] == Blanked(old(chars[..]), white)
  {
    ghost var s := chars[..];
    var len := chars.Length;
    var inString, escaped := false, false;
    var i := 0;
    while i < len
      invariant 0 <= i <= len
      invariant QuoteAt(s, i) == QuoteOf(inString, escaped) && (!inString ==> !escaped)
      invariant forall k :: 0 <= k < i ==> chars[k] == Blanked(s, white)[k]
      invariant forall k :: i <= k < len ==> chars[k] == s[k]
    {
      var ch := chars[i];
      if inString {
        if escaped {
          escaped := false;
        } else if ch == '\\' {
          escaped := true;
        } else if ch == '"' {
          inString := false;
        }
        i := i + 1;
        continue;
      }
      if ch == '"' {
        inString := true;
        i := i + 1;
        continue;
      }
      if ch == ',' {
        var j := i + 1;
        while j < len && white(chars[j])
          invariant i + 1 <= j <= len
          invariant NextInk(s, j, white) == NextInk(s, i + 1, white)
        {
          j := j + 1;
        }
        if j < len && (chars[j] == '}' || chars[j] == ']') {
          chars[i] := ' ';
        }
      }
      i := i + 1;
    }
  }

  /** Both passes. */
  function Cleaned(s: string, white: char -> bool): string {
    Blanked(Strip(s, Outside), white)
  }

  method StripJsonComments(input: string, white: char -> bool) returns (r: string)
    ensures r == Cleaned(input, white)
  {
    var out := StripComments(input);
    var chars := new char[|out|](i requires 0 <= i < |out| => out[i]);
    assert chars[..] == out;
    StripTrailingCommas(chars, white);
    r := chars[..];
  }

  // ----- blanking twice ----------------------------------------------------------------------------

  lemma {:induction false} QuotesStay(s: string, i: nat, white: char -> bool)
    requires i <= |s|
    ensures QuoteAt(Blanked(s, white), i) == QuoteAt(s, i)
  {
    if i == 0 {
    } else {
      QuotesStay(s, i - 1, white);
    }
  }

  /** A trailing comma right before which, white space apart, stands another comma. */
  predicate Doubled(s: string, i: nat, white: char -> bool) {
    CommaAt(s, i) && Trailing(s, NextInk(s, i + 1, white), white)
  }

  /** Up to the next ink, blanking changes nothing; a blanked comma is then skipped. */
  lemma {:induction false} InkAfter(s: string, j: nat, white: char -> bool)
    requires Proper(white) && j <= |s|
    ensures var k := NextInk(s, j, white);
      NextInk(Blanked(s, white), j, white) == if Trailing(s, k, white) then NextInk(s, k + 1, white) else k
    decreases |s| - j
  {
    if j == |s| || (!white(s[j]) && !Trailing(s, j, white)) {
    } else {
      InkAfter(s, j + 1, white);
    }
  }

  lemma TrailingAfter(s: string, i: nat, white: char -> bool)
    requires Proper(white)
    ensures Trailing(Blanked(s, white), i, white) <==> Doubled(s, i, white)
  {
    if i < |s| {
      QuotesStay(s, i, white);
      InkAfter(s, i + 1, white);
    }
  }

  lemma BlankedFixes(t: string, white: char -> bool)
    ensures Blanked(t, white) == t <==> forall i: nat :: i < |t| ==> !Trailing(t, i, white)
  {
    if Blanked(t, white) == t {
      forall i: nat | i < |t| ensures !Trailing(t, i, white) {
        assert Blanked(t, white)[i] == t[i];
      }
    }
  }

  /** The pass is idempotent on a text exactly when no trailing comma directly follows another comma. */
  lemma BlankingTwice(s: string, white: char -> bool)
    requires Proper(white)
    ensures Blanked(Blanked(s, white), white) == Blanked(s, white)
       <==> forall i: nat :: i < |s| ==> !Doubled(s, i, white)
  {
    BlankedFixes(Blanked(s, white), white);
    forall i: nat | i < |s| ensures Trailing(Blanked(s, white), i, white) <==> Doubled(s, i, white) {
      TrailingAfter(s, i, white);
    }
  }

  /** One of two commas survives the first pass and falls in the second. */
  lemma DoubledCommaExample(white: char -> bool)
    requires Proper(white) && !white('1')
    ensures Blanked("[1,,]", white) == "[1, ]" && Blanked("[1, ]", white) == "[1  ]"
  {
    var s, t := "[1,,]", "[1, ]";
    assert QuoteAt(s, 2) == Outside && QuoteAt(s, 3) == Outside && QuoteAt(t, 2) == Outside;
    assert NextInk(s, 3, white) == 3 && NextInk(s, 4, white) == 4 && NextInk(t, 3, white) == NextInk(t, 4, white) == 4;
  }

  // ----- the two passes together -------------------------------------------------------------------

  /** `v` is `u` with some commas outside strings blanked. */
  ghost predicate Alike(u: string, v: string) {
    |u| == |v| && forall i: nat {:trigger Same(u, v, i)} :: i < |u| ==> Same(u, v, i)
  }

  ghost predicate Same(u: string, v: string, i: nat)
    requires i < |u| == |v|
  {
    u[i] == v[i] || (CommaAt(u, i) && v[i] == ' ')
  }

  lemma {:induction false} QuoteAtTail(s: string, k: nat, i: nat)
    requires k + i <= |s| && QuoteAt(s, k) == Outside
    ensures QuoteAt(s[k..], i) == QuoteAt(s, k + i)
  {
    if i == 0 {
    } else {
      QuoteAtTail(s, k, i - 1);
    }
  }

  lemma AlikeTail(u: string, v: string, k: nat)
    requires Alike(u, v) && k <= |u| && QuoteAt(u, k) == Outside
    ensures Alike(u[k..], v[k..])
  {
    forall i: nat | i < |u| - k ensures Same(u[k..], v[k..], i) {
      QuoteAtTail(u, k, i);
      assert Same(u, v, k + i);
    }
  }

  /** Between its quotes a string is inside, and after the closing one the text is outside again. */
  lemma {:induction false} InsideBody(s: string, i: nat)
    requires s != [] && s[0] == '"' && i <= QuotedLength(s[1..], false)
    ensures QuoteAt(s, 1 + i).Inside?
    ensures QuotedLength(s[1 + i..], QuoteAt(s, 1 + i).escaped) == QuotedLength(s[1..], false) - i
  {
    if i > 0 {
      InsideBody(s, i - 1);
      assert s[i..][1..] == s[1 + i..];
    } else {
      assert QuoteAt(s, 1) == Next(QuoteAt(s, 0), s[0]);
    }
  }

  lemma QuotedAlike(u: string, v: string)
    requires Alike(u, v) && u != [] && u[0] == '"'
    ensures FirstSegment(v) == FirstSegment(u)
    ensures Alike(Rest(u), Rest(v))
  {
    var n := QuotedLength(u[1..], false);
    assert Same(u, v, 0);
    forall i: nat | i < |u| && i <= n + 1 ensures u[i] == v[i] {
      if i > 0 { InsideBody(u, i - 1); }
      assert Same(u, v, i);
    }
    if n < |u[1..]| {
      assert u[1..][..n + 1] == v[1..][..n + 1];
      QuotedLengthIsLocal(u[1..], v[1..], false);
      InsideBody(u, n);
      assert QuoteAt(u, n + 2) == Outside;
      AlikeTail(u, v, n + 2);
      assert u[1..1 + n] == v[1..1 + n];
    } else {
      assert u == v;
    }
  }

  lemma PlainAlike(u: string, v: string)
    requires Alike(u, v) && u != [] && FirstSegment(u).Plain?
    ensures v != [] && FirstSegment(v).Plain? && Alike(Rest(u), Rest(v))
  {
    assert Same(u, v, 0);
    if |u| > 1 { assert Same(u, v, 1); }
    assert QuoteAt(u, 1) == Next(QuoteAt(u, 0), u[0]);
    AlikeTail(u, v, 1);
  }

  /** Blanking commas outside strings touches no string and makes no comment. */
  lemma {:induction false} SegmentsStay(u: string, v: string)
    requires Alike(u, v) && NoComments(Scan(u))
    ensures NoComments(Scan(v)) && Strings(Scan(v)) == Strings(Scan(u))
    decreases |u|
  {
    if u == [] {
    } else {
      assert Scan(u)[1..] == Scan(Rest(u));
      if u[0] == '"' {
        QuotedAlike(u, v);
      } else {
        PlainAlike(u, v);
      }
      SegmentsStay(Rest(u), Rest(v));
      assert Scan(v)[1..] == Scan(Rest(v));
    }
  }

  lemma {:induction false} NewlinesStay(u: string, v: string)
    requires |u| == |v| && forall i :: 0 <= i < |u| ==> u[i] == v[i] || (u[i] == ',' && v[i] == ' ')
    ensures NewlinesOf(v) == NewlinesOf(u)
  {
    if u == [] {
    } else {
      NewlinesStay(u[1..], v[1..]);
    }
  }

  /** Main result for both passes: the result holds no comment, exactly the strings and newlines of the input,
      and a second application changes it exactly when the stripped text doubles a trailing comma. */
  lemma CleanTextIs(s: string, white: char -> bool)
    requires Proper(white)
    ensures var u := Strip(s, Outside); var t := Blanked(u, white);
      && NoComments(Scan(t)) && Strings(Scan(t)) == Strings(Scan(s)) && NewlinesOf(t) == NewlinesOf(s)
      && (Blanked(Strip(t, Outside), white) == t <==> forall i: nat :: i < |u| ==> !Doubled(u, i, white))
  {
    var u := Strip(s, Outside);
    var t := Blanked(u, white);
    StrippedTextIs(s);
    BlankedIsAlike(u, white);
    SegmentsStay(u, t);
    NewlinesStay(u, t);
    StrippedTextIs(t);
    BlankingTwice(u, white);
  }

  lemma BlankedIsAlike(u: string, white: char -> bool)
    ensures Alike(u, Blanked(u, white))
  {
    forall i: nat | i < |u| ensures Same(u, Blanked(u, white), i) {
    }
  }
}
