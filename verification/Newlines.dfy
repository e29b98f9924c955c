/** Line-ending normalization of file contents. A string here is a sequence of bytes. */
module Newlines {
  import opened Sequences

  predicate StartsCrlf(s: string) {
    |s| >= 2 && s[0] == '\r' && s[1] == '\n'
  }

  /** Every carriage return directly before a line feed is dropped. */
  function Normalized(s: string): string {
    if s == [] then []
    else if StartsCrlf(s) then Normalized(s[1..])
    else [s[0]] + Normalized(s[1..])
  }

  method NormalizeNewlines(bytes: string) returns (out: string)
    ensures out == Normalized(bytes)
  {
    out := "";
    var i := 0;
    while i < |bytes|
      invariant 0 <= i <= |bytes|
      invariant out + Normalized(bytes[i..]) == Normalized(bytes)
    {
      StepAt(bytes, i);
      if bytes[i] == '\r' && i + 1 < |bytes| && bytes[i + 1] == '\n' {
        i := i + 1;
        continue;
      }
      Regroup(out, [bytes[i]], Normalized(bytes[i + 1..]));
      out := out + [bytes[i]];
      i := i + 1;
    }
  }

  lemma StepAt(s: string, i: nat)
    requires i < |s|
    ensures Normalized(s[i..])
         == (if s[i] == '\r' && i + 1 < |s| && s[i + 1] == '\n' then [] else [s[i]]) + Normalized(s[i + 1..])
  {
    assert s[i..][1..] == s[i + 1..];
  }

  /** Somewhere `s` spells `pattern`. */
  ghost predicate Holds(s: string, pattern: string) {
    exists i: nat :: i <= |s| && pattern <= s[i..]
  }

  lemma HoldsTail(s: string, pattern: string)
    requires s != []
    ensures Holds(s, pattern) <==> pattern <= s || Holds(s[1..], pattern)
  {
    if Holds(s, pattern) {
      var i: nat :| i <= |s| && pattern <= s[i..];
      if i > 0 { assert s[1..][i - 1..] == s[i..]; }
    }
    if Holds(s[1..], pattern) {
      var i: nat :| i <= |s| - 1 && pattern <= s[1..][i..];
      assert s[i + 1..] == s[1..][i..];
    }
    if pattern <= s { assert s[0..] == s; }
  }

  lemma ShortHolds(s: string, pattern: string)
    requires |s| < |pattern|
    ensures !Holds(s, pattern)
  {
  }

  lemma NormalizedHead(s: string)
    requires s != []
    ensures Normalized(s) != []
    ensures StartsCrlf(s) ==> Normalized(s)[0] == '\n'
    ensures !StartsCrlf(s) ==> Normalized(s)[0] == s[0]
  {
  }

  /** What is left of a line ending is bare exactly where no second return stood before it. */
  lemma {:induction false} NormalizedHoldsCrlf(s: string)
    ensures Holds(Normalized(s), "\r\n") <==> Holds(s, "\r\r\n")
  {
    if s == [] {
      ShortHolds(s, "\r\r\n");
      ShortHolds(s, "\r\n");
    } else {
      NormalizedHoldsCrlf(s[1..]);
      HoldsTail(s, "\r\r\n");
      if !StartsCrlf(s) {
        var t := Normalized(s);
        assert t[1..] == Normalized(s[1..]);
        HoldsTail(t, "\r\n");
        if s[1..] != [] { NormalizedHead(s[1..]); }
      }
    }
  }

  lemma {:induction false} NormalizedShrinks(s: string)
    ensures |Normalized(s)| <= |s|
    ensures |Normalized(s)| == |s| <==> !Holds(s, "\r\n")
    ensures !Holds(s, "\r\n") ==> Normalized(s) == s
  {
    if s == [] {
      ShortHolds(s, "\r\n");
    } else {
      NormalizedShrinks(s[1..]);
      HoldsTail(s, "\r\n");
      assert "\r\n" <= s <==> StartsCrlf(s) by {
        if StartsCrlf(s) { assert s[..2] == "\r\n"; }
      }
    }
  }

  /** A pair becomes a line feed, and what stands before and after it is normalized as if it stood alone. */
  lemma {:induction false} PairBecomesLineFeed(a: string, b: string)
    ensures Normalized(a + "\r\n" + b) == Normalized(a) + "\n" + Normalized(b)
  {
    var s := a + "\r\n" + b;
    if a == [] {
      assert s[1..] == "\n" + b && s[1..][1..] == b;
    } else {
      assert s[1..] == a[1..] + "\r\n" + b;
      PairBecomesLineFeed(a[1..], b);
      assert StartsCrlf(s) <==> StartsCrlf(a);
    }
  }

  /** Normalizing is idempotent on a text exactly when no line feed has two returns before it. */
  lemma NormalizingTwice(s: string)
    ensures Normalized(Normalized(s)) == Normalized(s) <==> !Holds(s, "\r\r\n")
  {
    NormalizedShrinks(Normalized(s));
    NormalizedHoldsCrlf(s);
  }

  /** The same lines with every line feed written as return and line feed. */
  function Crlf(s: string): string {
    if s == [] then [] else (if s[0] == '\n' then "\r\n" else [s[0]]) + Crlf(s[1..])
  }

  lemma CrlfHead(s: string)
    requires s != []
    ensures Crlf(s) != [] && Crlf(s)[0] != '\n'
  {
  }

  /** A checkout that writes line feeds as pairs is normalized back, whatever the text. */
  lemma {:induction false} CrlfRoundTrip(s: string)
    ensures Normalized(Crlf(s)) == s
  {
    if s == [] {
    } else {
      CrlfRoundTrip(s[1..]);
      var t := Crlf(s);
      if s[0] == '\n' {
        assert t == "\r\n" + Crlf(s[1..]);
        assert t[1..] == "\n" + Crlf(s[1..]) && t[1..][1..] == Crlf(s[1..]);
      } else {
        assert t[1..] == Crlf(s[1..]);
        if s[1..] != [] { CrlfHead(s[1..]); }
      }
    }
  }

  /** The two checkouts of a text contribute the same bytes exactly when the text itself holds no pair. */
  lemma CheckoutsAgree(s: string)
    ensures Normalized(Crlf(s)) == Normalized(s) <==> !Holds(s, "\r\n")
  {
    CrlfRoundTrip(s);
    NormalizedShrinks(s);
  }
}
