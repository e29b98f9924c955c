/** JSON values, their printed readings, and what the two passes make of them. */
module JsonValues {
  import opened Jsonc
  import opened JsonReading
  import opened Sequences
  import opened TrailingCommas

  /** A value as it is written. A list is an array of values or an object of pairs, with or without a comma before
      its end; a word is a number, `true`, `false` or `null`, spelled in any characters that make no other token. */
  datatype Value =
    | Word(text: string)
    | Text(body: string)
    | Pair(key: string, value: Value)
    | List(braces: bool, items: seq<Value>, trailing: bool)

  ghost predicate WellFormed(v: Value, white: char -> bool)
    decreases v
  {
    match v
    case Word(text) => text != [] && forall i :: 0 <= i < |text| ==> InWord(Plain(text[i]), white)
    case Text(_) => true
    case Pair(_, value) => !value.Pair? && WellFormed(value, white)
    case List(braces, items, _) => AllWellFormed(braces, items, white)
  }

  ghost predicate AllWellFormed(pairs: bool, items: seq<Value>, white: char -> bool)
    decreases items
  {
    items == []
    || (items[0].Pair? == pairs && WellFormed(items[0], white) && AllWellFormed(pairs, items[1..], white))
  }

  // ----- printing ----------------------------------------------------------------------------------

  function Punct(c: char): seq<Ink> {
    [Ink(Plain(c), false)]
  }

  function InQuotes(body: string): seq<Ink> {
    [Ink(Quoted(body, true), false)]
  }

  /** The characters of a word, or of the rest of one. */
  function Letters(text: string, joined: bool): seq<Ink> {
    if text == [] then [] else [Ink(Plain(text[0]), joined)] + Letters(text[1..], true)
  }

  function Opening(braces: bool): char {
    if braces then '{' else '['
  }

  function Closing(braces: bool): char {
    if braces then '}' else ']'
  }

  /** How a value reads. */
  function Print(v: Value): seq<Ink>
    decreases v
  {
    match v
    case Word(text) => Letters(text, false)
    case Text(body) => InQuotes(body)
    case Pair(key, value) => InQuotes(key) + (Punct(':') + Print(value))
    case List(braces, items, trailing) =>
      Punct(Opening(braces)) + (Items(items, trailing) + Punct(Closing(braces)))
  }

  function End(trailing: bool): seq<Ink> {
    if trailing then Punct(',') else []
  }

  function Items(items: seq<Value>, trailing: bool): seq<Ink>
    decreases items
  {
    if items == [] then End(trailing)
    else if |items| == 1 then Print(items[0]) + End(trailing)
    else Print(items[0]) + (Punct(',') + Items(items[1..], trailing))
  }

  /** The value without its trailing commas. */
  function Strict(v: Value): Value
    decreases v
  {
    match v
    case Word(_) => v
    case Text(_) => v
    case Pair(key, value) => Pair(key, Strict(value))
    case List(braces, items, _) => List(braces, AllStrict(items), false)
  }

  function AllStrict(items: seq<Value>): (r: seq<Value>)
    ensures |r| == |items|
    decreases items
  {
    if items == [] then [] else [Strict(items[0])] + AllStrict(items[1..])
  }

  lemma {:induction false} StrictIsWellFormed(v: Value, white: char -> bool)
    requires WellFormed(v, white)
    ensures WellFormed(Strict(v), white) && Strict(v).Pair? == v.Pair? && Strict(Strict(v)) == Strict(v)
    decreases v
  {
    match v
    case Word(_) =>
    case Text(_) =>
    case Pair(_, value) => StrictIsWellFormed(value, white);
    case List(braces, items, _) => AllStrictAreWellFormed(braces, items, white);
  }

  lemma {:induction false} AllStrictAreWellFormed(pairs: bool, items: seq<Value>, white: char -> bool)
    requires AllWellFormed(pairs, items, white)
    ensures AllWellFormed(pairs, AllStrict(items), white) && AllStrict(AllStrict(items)) == AllStrict(items)
    decreases items
  {
    if items == [] {
    } else {
      StrictIsWellFormed(items[0], white);
      AllStrictAreWellFormed(pairs, items[1..], white);
      assert AllStrict(items)[1..] == AllStrict(items[1..]);
    }
  }

  /** A printed value begins with no comma, no colon and no end of a list. */
  lemma Starts(v: Value, white: char -> bool)
    requires Spaces(white) && WellFormed(v, white)
    ensures var p := Print(v); p != [] && !p[0].joined && !Closer(p[0].segment)
    ensures Print(v)[0].segment != Plain(',') && Print(v)[0].segment != Plain(':')
  {
    if v.Word? { assert InWord(Plain(v.text[0]), white); }
  }

  // ----- without trailing commas -------------------------------------------------------------------

  lemma KeptInk(a: Ink, y: seq<Ink>)
    requires a.segment == Plain(',') ==> y == [] || !Closer(y[0].segment)
    ensures WithoutTrailing([a] + y) == [a] + WithoutTrailing(y)
  {
    assert ([a] + y)[1..] == y;
  }

  lemma DroppedComma(y: seq<Ink>)
    requires y != [] && Closer(y[0].segment)
    ensures WithoutTrailing(Punct(',') + y) == WithoutTrailing(y)
  {
    assert (Punct(',') + y)[1..] == y;
  }

  lemma {:induction false} LettersStay(text: string, joined: bool, x: seq<Ink>, white: char -> bool)
    requires forall i :: 0 <= i < |text| ==> InWord(Plain(text[i]), white)
    ensures WithoutTrailing(Letters(text, joined) + x) == Letters(text, joined) + WithoutTrailing(x)
  {
    if text == [] {
      assert Letters(text, joined) + x == x;
    } else {
      var a, rest := Ink(Plain(text[0]), joined), Letters(text[1..], true);
      assert InWord(Plain(text[0]), white);
      LettersStay(text[1..], true, x, white);
      Regroup([a], rest, x);
      KeptInk(a, rest + x);
      Regroup([a], rest, WithoutTrailing(x));
    }
  }

  /** Dropping the trailing commas from a printed value prints the value without them. */
  lemma {:induction false} PrintedStrictly(v: Value, x: seq<Ink>, white: char -> bool)
    requires Spaces(white) && WellFormed(v, white)
    ensures WithoutTrailing(Print(v) + x) == Print(Strict(v)) + WithoutTrailing(x)
    decreases v
  {
    hide WithoutTrailing, InWord;
    match v
    case Word(text) =>
      LettersStay(text, false, x, white);
    case Text(body) =>
      KeptInk(InQuotes(body)[0], x);
    case Pair(key, value) =>
      PrintedStrictly(value, x, white);
      var q, p, s := InQuotes(key), Print(value), Print(Strict(value));
      Group4(q, Punct(':'), p, x);
      Group4(q, Punct(':'), s, WithoutTrailing(x));
      KeptInk(Punct(':')[0], p + x);
      KeptInk(q[0], Punct(':') + (p + x));
    case List(braces, items, trailing) =>
      var o, c := Punct(Opening(braces)), Punct(Closing(braces));
      ItemsStrictly(braces, items, trailing, x, white);
      Group4(o, Items(items, trailing), c, x);
      Group4(o, Items(AllStrict(items), false), c, WithoutTrailing(x));
      KeptInk(o[0], Items(items, trailing) + (c + x));
  }

  lemma Group4<T>(a: seq<T>, b: seq<T>, c: seq<T>, d: seq<T>)
    ensures a + (b + c) + d == a + (b + (c + d))
  {
  }

  lemma EndDropped(braces: bool, trailing: bool, x: seq<Ink>)
    ensures WithoutTrailing(End(trailing) + (Punct(Closing(braces)) + x)) == Punct(Closing(braces)) + WithoutTrailing(x)
  {
    hide WithoutTrailing;
    var c := Punct(Closing(braces));
    KeptInk(c[0], x);
    if trailing {
      DroppedComma(c + x);
    } else {
      assert [] + (c + x) == c + x;
    }
  }

  lemma {:induction false} ItemsStrictly(
      braces: bool, items: seq<Value>, trailing: bool, x: seq<Ink>, white: char -> bool)
    requires Spaces(white) && AllWellFormed(braces, items, white)
    ensures WithoutTrailing(Items(items, trailing) + (Punct(Closing(braces)) + x))
         == Items(AllStrict(items), false) + (Punct(Closing(braces)) + WithoutTrailing(x))
    decreases items
  {
    hide WithoutTrailing, Print, WellFormed, Punct;
    var c := Punct(Closing(braces));
    var tail := c + x;
    var left := c + WithoutTrailing(x);
    EndDropped(braces, trailing, x);
    if items == [] {
      assert [] + left == left;
    } else {
      var p, s := Print(items[0]), Print(Strict(items[0]));
      if |items| == 1 {
        assert AllStrict(items[1..]) == [];
        PrintedStrictly(items[0], End(trailing) + tail, white);
        Regroup(p, End(trailing), tail);
        assert s + End(false) == s;
      } else {
        var rest, strict := Items(items[1..], trailing), Items(AllStrict(items[1..]), false);
        assert AllStrict(items)[1..] == AllStrict(items[1..]);
        ItemsStrictly(braces, items[1..], trailing, x, white);
        PrintedStrictly(items[0], Punct(',') + (rest + tail), white);
        Group4(p, Punct(','), rest, tail);
        Group4(s, Punct(','), strict, left);
        ItemsStart(items[1..], trailing, tail, white);
        CommaStays(rest + tail);
      }
    }
  }

  lemma CommaStays(y: seq<Ink>)
    requires y != [] && !Closer(y[0].segment)
    ensures WithoutTrailing(Punct(',') + y) == Punct(',') + WithoutTrailing(y)
  {
    KeptInk(Punct(',')[0], y);
  }

  lemma ItemsStart(items: seq<Value>, trailing: bool, x: seq<Ink>, white: char -> bool)
    requires Spaces(white) && items != [] && WellFormed(items[0], white)
    ensures var p := Items(items, trailing) + x;
      p != [] && p[0] == Print(items[0])[0] && !Closer(p[0].segment) && p[0].segment != Plain(',')
  {
    Starts(items[0], white);
  }

  // ----- and back ----------------------------------------------------------------------------------

  lemma TailCommasApart(x: seq<Ink>, n: nat)
    requires CommasApart(x) && n <= |x|
    ensures CommasApart(x[n..])
  {
  }

  /** What stands before the rest was there before the commas were dropped. */
  lemma WasThere(x: seq<Ink>, a: Ink, y: seq<Ink>)
    requires WithoutTrailing(x) == [a] + y && !Closer(a.segment)
    ensures x != [] && x == [a] + x[1..] && WithoutTrailing(x[1..]) == y
  {
    if x[0].segment == Plain(',') && |x| > 1 && Closer(x[1].segment) {
    } else {
      assert WithoutTrailing(x)[0] == x[0];
      assert WithoutTrailing(x)[1..] == WithoutTrailing(x[1..]);
    }
  }

  /** The end of a list was there too, with a comma before it or without. */
  lemma EndWasThere(braces: bool, x: seq<Ink>, y: seq<Ink>) returns (trailing: bool, rest: seq<Ink>)
    requires WithoutTrailing(x) == Punct(Closing(braces)) + y && CommasApart(x)
    ensures x == End(trailing) + (Punct(Closing(braces)) + rest) && WithoutTrailing(rest) == y && CommasApart(rest)
  {
    trailing := x[0].segment == Plain(',') && |x| > 1 && Closer(x[1].segment);
    if trailing {
      assert x[1..][1..] == x[2..];
      assert WithoutTrailing(x) == [x[1]] + WithoutTrailing(x[2..]);
      assert WithoutTrailing(x)[0] == Punct(Closing(braces))[0] && !x[0].joined;
      assert x[1] == Punct(Closing(braces))[0] && x[0] == Punct(',')[0];
      rest := x[2..];
      TailCommasApart(x, 2);
      assert x == Punct(',') + (Punct(Closing(braces)) + rest);
    } else {
      assert WithoutTrailing(x)[0] == x[0];
      assert WithoutTrailing(x)[1..] == WithoutTrailing(x[1..]);
      rest := x[1..];
      TailCommasApart(x, 1);
    }
    assert WithoutTrailing(x)[1..] == y;
  }

  lemma {:induction false} LettersWereThere(
      text: string, joined: bool, x: seq<Ink>, y: seq<Ink>, white: char -> bool) returns (rest: seq<Ink>)
    requires Spaces(white) && forall i :: 0 <= i < |text| ==> InWord(Plain(text[i]), white)
    requires WithoutTrailing(x) == Letters(text, joined) + y && CommasApart(x)
    ensures x == Letters(text, joined) + rest && WithoutTrailing(rest) == y && CommasApart(rest)
  {
    hide WithoutTrailing, CommasApart;
    if text == [] {
      rest := x;
      assert [] + y == y && x == [] + rest;
    } else {
      var a := Ink(Plain(text[0]), joined);
      assert InWord(Plain(text[0]), white);
      Regroup([a], Letters(text[1..], true), y);
      WasThere(x, a, Letters(text[1..], true) + y);
      TailCommasApart(x, 1);
      rest := LettersWereThere(text[1..], true, x[1..], y, white);
      Regroup([a], Letters(text[1..], true), rest);
    }
  }

  /** A reading that shows a value without trailing commas shows it, with some, before they are dropped. */
  lemma {:induction false} PrintedLoosely(w: Value, x: seq<Ink>, y: seq<Ink>, white: char -> bool)
    returns (v: Value, rest: seq<Ink>)
    requires Spaces(white) && WellFormed(w, white) && Strict(w) == w
    requires WithoutTrailing(x) == Print(w) + y && CommasApart(x)
    ensures WellFormed(v, white) && Strict(v) == w && v.Pair? == w.Pair?
    ensures x == Print(v) + rest && WithoutTrailing(rest) == y && CommasApart(rest)
    decreases w
  {
    hide WithoutTrailing, InWord, CommasApart;
    v := w;
    match w
    case Word(text) =>
      rest := LettersWereThere(text, false, x, y, white);
    case Text(body) =>
      WasThere(x, InQuotes(body)[0], y);
      TailCommasApart(x, 1);
      rest := x[1..];
    case Pair(key, value) =>
      var q, c, p := InQuotes(key), Punct(':'), Print(value);
      Group4(q, c, p, y);
      WasThere(x, q[0], c + (p + y));
      WasThere(x[1..], c[0], p + y);
      TailCommasApart(x, 1);
      TailCommasApart(x[1..], 1);
      var u;
      u, rest := PrintedLoosely(value, x[1..][1..], y, white);
      v := Pair(key, u);
      Group4(q, c, Print(u), rest);
    case List(braces, items, trailing) =>
      var o, c := Punct(Opening(braces)), Punct(Closing(braces));
      Group4(o, Items(items, false), c, y);
      WasThere(x, o[0], Items(items, false) + (c + y));
      TailCommasApart(x, 1);
      var us, comma;
      us, comma, rest := ItemsLoosely(braces, items, x[1..], y, white);
      v := List(braces, us, comma);
      Group4(o, Items(us, comma), c, rest);
  }

  lemma {:induction false} ItemsLoosely(
      braces: bool, items: seq<Value>, x: seq<Ink>, y: seq<Ink>, white: char -> bool)
    returns (us: seq<Value>, trailing: bool, rest: seq<Ink>)
    requires Spaces(white) && AllWellFormed(braces, items, white) && AllStrict(items) == items
    requires WithoutTrailing(x) == Items(items, false) + (Punct(Closing(braces)) + y) && CommasApart(x)
    ensures AllWellFormed(braces, us, white) && AllStrict(us) == items
    ensures x == Items(us, trailing) + (Punct(Closing(braces)) + rest)
    ensures WithoutTrailing(rest) == y && CommasApart(rest)
    decreases items
  {
    hide WithoutTrailing, CommasApart, Print, WellFormed;
    var c := Punct(Closing(braces));
    if items == [] {
      us := [];
      assert [] + (c + y) == c + y;
      trailing, rest := EndWasThere(braces, x, y);
    } else {
      var u, left;
      assert Strict(items[0]) == items[0] && AllStrict(items[1..]) == items[1..];
      if |items| == 1 {
        assert Print(items[0]) + [] + (c + y) == Print(items[0]) + (c + y);
        u, left := PrintedLoosely(items[0], x, c + y, white);
        trailing, rest := EndWasThere(braces, left, y);
        us := [u];
        assert us[1..] == [] && items[1..] == [];
        Regroup(Print(u), End(trailing), c + rest);
      } else {
        var more := Items(items[1..], false) + (c + y);
        Group4(Print(items[0]), Punct(','), Items(items[1..], false), c + y);
        u, left := PrintedLoosely(items[0], x, Punct(',') + more, white);
        WasThere(left, Punct(',')[0], more);
        TailCommasApart(left, 1);
        var vs;
        vs, trailing, rest := ItemsLoosely(braces, items[1..], left[1..], y, white);
        us := [u] + vs;
        assert us[1..] == vs && |vs| == |items| - 1;
        Group4(Print(u), Punct(','), Items(vs, trailing), c + rest);
      }
    }
  }

  // ----- one value ---------------------------------------------------------------------------------

  /** What can follow a value: nothing, a comma, or the end of a list. */
  ghost predicate Follows(x: seq<Ink>) {
    x == [] || x[0].segment == Plain(',') || Closer(x[0].segment)
  }

  lemma LettersStart(a: string, joined: bool, x: seq<Ink>, white: char -> bool)
    requires Spaces(white) && (a != [] ==> InWord(Plain(a[0]), white))
    ensures a == [] ==> Letters(a, joined) + x == x
    ensures a != [] ==> !Follows(Letters(a, joined) + x)
  {
    if a == [] {
      assert Letters(a, joined) + x == x;
    } else {
      assert (Letters(a, joined) + x)[0].segment == Plain(a[0]);
    }
  }

  lemma LettersStep(a: string, joined: bool, x: seq<Ink>)
    requires a != []
    ensures Letters(a, joined) + x == [Ink(Plain(a[0]), joined)] + (Letters(a[1..], true) + x)
  {
    Regroup([Ink(Plain(a[0]), joined)], Letters(a[1..], true), x);
  }

  lemma {:induction false} LettersDiffer(
      a: string, b: string, joined: bool, x: seq<Ink>, y: seq<Ink>, white: char -> bool)
    requires Spaces(white) && Follows(x) && Follows(y)
    requires forall i :: 0 <= i < |a| ==> InWord(Plain(a[i]), white)
    requires forall i :: 0 <= i < |b| ==> InWord(Plain(b[i]), white)
    requires Letters(a, joined) + x == Letters(b, joined) + y
    ensures a == b && x == y
  {
    hide InWord, Follows;
    if a == [] || b == [] {
      LettersStart(a, joined, x, white);
      LettersStart(b, joined, y, white);
    } else {
      LettersStep(a, joined, x);
      LettersStep(b, joined, y);
      CutFirst([Ink(Plain(a[0]), joined)], Letters(a[1..], true) + x,
               [Ink(Plain(b[0]), joined)], Letters(b[1..], true) + y);
      LettersDiffer(a[1..], b[1..], true, x, y, white);
      assert a == [a[0]] + a[1..] && b == [b[0]] + b[1..];
    }
  }

  lemma FirstInk(v: Value, x: seq<Ink>, white: char -> bool)
    requires Spaces(white) && WellFormed(v, white)
    ensures var g := (Print(v) + x)[0].segment;
      && (v.Word? ==> InWord(g, white))
      && (v.Text? ==> g == Quoted(v.body, true))
      && (v.Pair? ==> g == Quoted(v.key, true))
      && (v.List? ==> g == Plain(Opening(v.braces)) && !InWord(g, white))
  {
    Starts(v, white);
    if v.Word? { assert InWord(Plain(v.text[0]), white); }
  }

  lemma CutFirst<T>(a: seq<T>, x: seq<T>, b: seq<T>, y: seq<T>)
    requires |a| == |b| == 1 && a + x == b + y
    ensures a == b && x == y
  {
    assert (a + x)[0] == a[0] && (b + y)[0] == b[0] && (a + x)[1..] == x && (b + y)[1..] == y;
  }

  /** A reading begins with at most one value. */
  lemma {:induction false} OnePrinted(v: Value, x: seq<Ink>, w: Value, y: seq<Ink>, white: char -> bool)
    requires Spaces(white) && WellFormed(v, white) && WellFormed(w, white) && Follows(x) && Follows(y)
    requires Print(v) + x == Print(w) + y
    ensures v == w && x == y
    decreases v
  {
    FirstInk(v, x, white);
    FirstInk(w, y, white);
    hide InWord;
    match v
    case Word(text) =>
      LettersDiffer(text, w.text, false, x, y, white);
    case Text(body) =>
      if w.Pair? {
        PairGoesOn(w, y);
        assert false;
      } else {
        CutFirst(InQuotes(body), x, InQuotes(w.body), y);
      }
    case Pair(key, value) =>
      PairGoesOn(v, x);
      if w.Text? {
        assert false;
      } else {
        var c := Punct(':');
        Group4(InQuotes(key), c, Print(value), x);
        Group4(InQuotes(w.key), c, Print(w.value), y);
        CutFirst(InQuotes(key), c + (Print(value) + x), InQuotes(w.key), c + (Print(w.value) + y));
        CutFirst(c, Print(value) + x, c, Print(w.value) + y);
        OnePrinted(value, x, w.value, y, white);
      }
    case List(braces, items, trailing) =>
      var o, c := Punct(Opening(braces)), Punct(Closing(braces));
      Group4(o, Items(items, trailing), c, x);
      Group4(o, Items(w.items, w.trailing), c, y);
      CutFirst(o, Items(items, trailing) + (c + x), o, Items(w.items, w.trailing) + (c + y));
      OneList(braces, items, trailing, x, w.items, w.trailing, y, white);
  }

  lemma PairGoesOn(v: Value, x: seq<Ink>)
    requires v.Pair?
    ensures |Print(v) + x| > 1 && (Print(v) + x)[1].segment == Plain(':')
  {
  }

  /** How the rest of a list begins after an item. */
  lemma AfterItem(items: seq<Value>, trailing: bool, x: seq<Ink>, c: seq<Ink>)
    requires items != []
    ensures Items(items, trailing) + (c + x) == Print(items[0]) + (
      if |items| == 1 then End(trailing) + (c + x) else Punct(',') + (Items(items[1..], trailing) + (c + x)))
  {
    if |items| == 1 {
      Regroup(Print(items[0]), End(trailing), c + x);
    } else {
      Group4(Print(items[0]), Punct(','), Items(items[1..], trailing), c + x);
    }
  }

  lemma {:induction false} OneList(
      braces: bool, items: seq<Value>, trailing: bool, x: seq<Ink>,
      others: seq<Value>, comma: bool, y: seq<Ink>, white: char -> bool)
    requires Spaces(white) && AllWellFormed(braces, items, white) && AllWellFormed(braces, others, white)
    requires Items(items, trailing) + (Punct(Closing(braces)) + x)
          == Items(others, comma) + (Punct(Closing(braces)) + y)
    ensures items == others && trailing == comma && x == y
    decreases items
  {
    hide InWord, Print, WellFormed;
    var c := Punct(Closing(braces));
    if items == [] || others == [] {
      if items != [] { ItemsStart(items, trailing, c + x, white); }
      if others != [] { ItemsStart(others, comma, c + y, white); }
      EndsAgree(braces, trailing, x, comma, y);
    } else {
      AfterItem(items, trailing, x, c);
      AfterItem(others, comma, y, c);
      var l := if |items| == 1 then End(trailing) + (c + x) else Punct(',') + (Items(items[1..], trailing) + (c + x));
      var r := if |others| == 1 then End(comma) + (c + y) else Punct(',') + (Items(others[1..], comma) + (c + y));
      OnePrinted(items[0], l, others[0], r, white);
      assert items == [items[0]] + items[1..] && others == [others[0]] + others[1..];
      if |items| == 1 && |others| == 1 {
        EndsAgree(braces, trailing, x, comma, y);
      } else {
        if |items| > 1 { ItemsStart(items[1..], trailing, c + x, white); }
        if |others| > 1 { ItemsStart(others[1..], comma, c + y, white); }
        assert l[1..] == r[1..];
        if |items| > 1 && |others| > 1 {
          assert l[1..] == Items(items[1..], trailing) + (c + x) && r[1..] == Items(others[1..], comma) + (c + y);
          OneList(braces, items[1..], trailing, x, others[1..], comma, y, white);
        }
      }
    }
  }

  lemma EndsAgree(braces: bool, trailing: bool, x: seq<Ink>, comma: bool, y: seq<Ink>)
    ensures End(trailing) + (Punct(Closing(braces)) + x) == End(comma) + (Punct(Closing(braces)) + y) ==>
      trailing == comma && x == y
  {
    var c := Punct(Closing(braces));
    var l, r := End(trailing) + (c + x), End(comma) + (c + y);
    if l == r {
      assert l[0].segment == Plain(if trailing then ',' else Closing(braces));
      assert r[0].segment == Plain(if comma then ',' else Closing(braces));
      var n := if trailing then 2 else 1;
      assert l[n..] == x && r[n..] == y;
    }
  }

  // ----- no two words touch ------------------------------------------------------------------------

  ghost predicate Apart(x: seq<Ink>, white: char -> bool) {
    forall i :: 0 < i < |x| && InWord(x[i - 1].segment, white) && InWord(x[i].segment, white) ==> x[i].joined
  }

  ghost predicate Touch(x: seq<Ink>, y: seq<Ink>, white: char -> bool) {
    x != [] && y != [] && InWord(x[|x| - 1].segment, white) && InWord(y[0].segment, white)
  }

  lemma ApartConcat(x: seq<Ink>, y: seq<Ink>, white: char -> bool)
    requires Apart(x, white) && Apart(y, white) && !Touch(x, y, white)
    ensures Apart(x + y, white)
  {
    hide InWord;
    var z := x + y;
    forall i | 0 < i < |z| && InWord(z[i - 1].segment, white) && InWord(z[i].segment, white) ensures z[i].joined {
      if i > |x| { assert z[i - 1] == y[i - 1 - |x|] && z[i] == y[i - |x|]; }
    }
  }

  lemma {:induction false} LettersApart(text: string, joined: bool, white: char -> bool)
    ensures Apart(Letters(text, joined), white) && |Letters(text, joined)| == |text|
  {
    hide InWord;
    if text == [] {
    } else {
      LettersApart(text[1..], true, white);
      assert |text| > 1 ==> Letters(text, joined)[1] == Ink(Plain(text[1]), true);
    }
  }

  lemma {:induction false} PrintedApart(v: Value, white: char -> bool)
    requires Spaces(white) && WellFormed(v, white)
    ensures Apart(Print(v), white)
    decreases v
  {
    match v
    case Word(text) =>
      LettersApart(text, false, white);
    case Text(_) =>
    case Pair(key, value) =>
      PrintedApart(value, white);
      ApartConcat(Punct(':'), Print(value), white);
      ApartConcat(InQuotes(key), Punct(':') + Print(value), white);
    case List(braces, items, trailing) =>
      ItemsApart(braces, items, trailing, white);
      ApartConcat(Items(items, trailing), Punct(Closing(braces)), white);
      ApartConcat(Punct(Opening(braces)), Items(items, trailing) + Punct(Closing(braces)), white);
  }

  lemma {:induction false} ItemsApart(braces: bool, items: seq<Value>, trailing: bool, white: char -> bool)
    requires Spaces(white) && AllWellFormed(braces, items, white)
    ensures Apart(Items(items, trailing), white)
    decreases items
  {
    if items == [] {
    } else {
      PrintedApart(items[0], white);
      hide Print, WellFormed;
      if |items| == 1 {
        ApartConcat(Print(items[0]), End(trailing), white);
      } else {
        ItemsApart(braces, items[1..], trailing, white);
        ApartConcat(Punct(','), Items(items[1..], trailing), white);
        ApartConcat(Print(items[0]), Punct(',') + Items(items[1..], trailing), white);
      }
    }
  }

  lemma {:induction false} InksOfPrefix(gs: seq<Segment>, k: nat, white: char -> bool)
    requires k <= |gs|
    ensures Inks(gs[..k], false, white) <= Inks(gs, false, white)
    decreases |gs| - k
  {
    hide Inks;
    if k == |gs| {
      assert gs[..k] == gs;
    } else {
      assert gs[..k + 1] == gs[..k] + [gs[k]];
      InksSnoc(gs[..k], gs[k], false, white);
      InksOfPrefix(gs, k + 1, white);
    }
  }

  /** Where words do not touch, removing comments fuses none. */
  lemma ApartFusesNothing(gs: seq<Segment>, white: char -> bool)
    requires Apart(Inks(gs, false, white), white)
    ensures NothingFuses(gs, white)
  {
    forall i, j ensures !Fuses(gs, i, j, white) {
      if Fuses(gs, i, j, white) {
        FusedTouch(gs, i, j, white);
      }
    }
  }

  lemma FusedTouch(gs: seq<Segment>, i: int, j: int, white: char -> bool)
    requires Fuses(gs, i, j, white)
    ensures !Apart(Inks(gs, false, white), white)
  {
    FusedInks(gs, i, j, white);
    hide Inks, InWord;
    InksOfPrefix(gs, j + 1, white);
    var x, n := Inks(gs, false, white), |Inks(gs[..j], false, white)|;
    assert x[n - 1].segment == gs[i] && x[n] == Ink(gs[j], false);
  }

  lemma FusedInks(gs: seq<Segment>, i: int, j: int, white: char -> bool)
    requires Fuses(gs, i, j, white)
    ensures var x := Inks(gs[..j], false, white);
      && Inks(gs[..j + 1], false, white) == x + [Ink(gs[j], false)]
      && x != [] && x[|x| - 1].segment == gs[i]
  {
    FusedParts(gs, i, j, white);
    hide Inks, InWord, Fuses;
    assert gs[..i + 1] == gs[..i] + [gs[i]] && gs[..j + 1] == gs[..j] + [gs[j]];
    assert gs[..j] == gs[..i + 1] + gs[i + 1..j];
    InksSnoc(gs[..i], gs[i], false, white);
    InksOfBlanks(gs[..i + 1], gs[i + 1..j], white);
    InksSnoc(gs[..j], gs[j], false, white);
  }

  lemma FusedParts(gs: seq<Segment>, i: int, j: int, white: char -> bool)
    requires Fuses(gs, i, j, white)
    ensures 0 <= i < j < |gs| && !Blank(gs[i], white) && !Blank(gs[j], white) && !InWord(gs[j - 1], white)
    ensures forall g :: g in gs[i + 1..j] ==> Blank(g, white)
  {
    forall g | g in gs[i + 1..j] ensures Blank(g, white) {
      var k :| 0 <= k < j - i - 1 && gs[i + 1..j][k] == g;
      assert Vanishes(gs[i + 1 + k]);
    }
    assert Vanishes(gs[j - 1]);
  }

  // ----- what cleaning promises --------------------------------------------------------------------

  /** The text, white space and comments apart, is the value as written. */
  ghost predicate Reads(s: string, v: Value, white: char -> bool) {
    WellFormed(v, white) && !v.Pair? && Reading(s, white) == Print(v)
  }

  /** A text is at most one value, trailing commas included. */
  lemma ReadsOneValue(s: string, v: Value, w: Value, white: char -> bool)
    requires Spaces(white) && Reads(s, v, white) && Reads(s, w, white)
    ensures v == w
  {
    hide Reading, WellFormed, Print;
    assert Print(v) + [] == Print(v) && Print(w) + [] == Print(w);
    OnePrinted(v, [], w, [], white);
  }

  /** Main result. Cleaning a value written with comments, white space and trailing commas gives a text without
      comments that is the same value without trailing commas. */
  lemma CleanedReads(s: string, v: Value, white: char -> bool)
    requires Spaces(white) && Reads(s, v, white)
    ensures Reads(Cleaned(s, white), Strict(v), white) && NoComments(Scan(Cleaned(s, white)))
  {
    CleanTextIs(s, white);
    hide Inks, Print, WellFormed, Cleaned, Scan, NothingFuses, Apart, WithoutTrailing;
    PrintedApart(v, white);
    ApartFusesNothing(Scan(s), white);
    CleanedReadingIff(s, white);
    PrintedStrictly(v, [], white);
    StrictIsWellFormed(v, white);
    NothingDropped();
    assert Print(v) + [] == Print(v) && Print(Strict(v)) + [] == Print(Strict(v));
  }

  lemma NothingDropped()
    ensures WithoutTrailing([]) == []
  {
  }

  /** And only such texts are cleaned to a value, unless comments keep apart what would read as one word. */
  lemma CleanedReadsIff(s: string, w: Value, white: char -> bool)
    requires Spaces(white) && NothingFuses(Scan(s), white) && Strict(w) == w
    ensures Reads(Cleaned(s, white), w, white) <==> exists v :: Reads(s, v, white) && Strict(v) == w
  {
    if v :| Reads(s, v, white) && Strict(v) == w {
      CleanedReads(s, v, white);
    }
    if Reads(Cleaned(s, white), w, white) {
      var v := ReadBefore(s, w, white);
    }
  }

  lemma ReadBefore(s: string, w: Value, white: char -> bool) returns (v: Value)
    requires Spaces(white) && NothingFuses(Scan(s), white) && Strict(w) == w
    requires Reads(Cleaned(s, white), w, white)
    ensures Reads(s, v, white) && Strict(v) == w
  {
    hide Inks, Print, WellFormed, Cleaned, Scan, NothingFuses, CommasApart;
    CleanedReadingIff(s, white);
    ReadingCommasApart(Scan(s), false, white);
    assert Print(w) + [] == Print(w);
    var rest;
    v, rest := PrintedLoosely(w, Reading(s, white), [], white);
    OnlyNothingDrops(rest);
    assert Print(v) + [] == Print(v);
  }

  lemma {:induction false} OnlyNothingDrops(x: seq<Ink>)
    ensures WithoutTrailing(x) == [] ==> x == []
  {
    if x == [] {
    } else {
      OnlyNothingDrops(x[1..]);
    }
  }
}
