/** Total orders, sorting, and the order of strings. */
module Ordering {
  ghost predicate Total<T(!new)>(le: (T, T) -> bool) {
    && (forall a, b :: le(a, b) || le(b, a))
    && (forall a, b, c :: le(a, b) && le(b, c) ==> le(a, c))
  }

  ghost predicate SortedBy<T>(le: (T, T) -> bool, s: seq<T>) {
    forall i, j :: 0 <= i < j < |s| ==> le(s[i], s[j])
  }

  /** Puts `x` before the first element it does not follow. */
  function Insert<T>(le: (T, T) -> bool, x: T, s: seq<T>): seq<T> {
    if s == [] then [x]
    else if le(x, s[0]) then [x] + s
    else [s[0]] + Insert(le, x, s[1..])
  }

  /** Where `Insert` puts it. */
  function Position<T>(le: (T, T) -> bool, x: T, s: seq<T>): (i: nat)
    ensures i <= |s|
  {
    if s == [] || le(x, s[0]) then 0 else 1 + Position(le, x, s[1..])
  }

  lemma {:induction false} InsertAtPosition<T>(le: (T, T) -> bool, x: T, s: seq<T>)
    ensures var i := Position(le, x, s); Insert(le, x, s) == s[..i] + [x] + s[i..]
  {
    if s == [] || le(x, s[0]) {
      assert s[..0] + [x] + s[0..] == [x] + s;
    } else {
      InsertAtPosition(le, x, s[1..]);
    }
  }

  /** The library sort: a sorted rearrangement. */
  function Sort<T>(le: (T, T) -> bool, s: seq<T>): seq<T> {
    if s == [] then [] else Insert(le, s[0], Sort(le, s[1..]))
  }

  lemma {:induction false} InsertBag<T>(le: (T, T) -> bool, x: T, s: seq<T>)
    ensures multiset(Insert(le, x, s)) == multiset(s) + multiset{x}
  {
    if s == [] || le(x, s[0]) {
    } else {
      assert s == [s[0]] + s[1..];
      InsertBag(le, x, s[1..]);
    }
  }

  lemma {:induction false} InsertKeeps<T(!new)>(le: (T, T) -> bool, x: T, s: seq<T>)
    requires Total(le) && SortedBy(le, s)
    ensures SortedBy(le, Insert(le, x, s)) && multiset(Insert(le, x, s)) == multiset(s) + multiset{x}
  {
    InsertBag(le, x, s);
    if s == [] || le(x, s[0]) {
    } else {
      var r := Insert(le, x, s[1..]);
      InsertKeeps(le, x, s[1..]);
      assert Insert(le, x, s) == [s[0]] + r;
      hide Insert;
      forall j | 0 <= j < |r| ensures le(s[0], r[j]) {
        assert r[j] in multiset(r);
        assert r[j] == x || r[j] in s[1..];
      }
    }
  }

  lemma {:induction false} SortSorts<T(!new)>(le: (T, T) -> bool, s: seq<T>)
    requires Total(le)
    ensures SortedBy(le, Sort(le, s)) && multiset(Sort(le, s)) == multiset(s)
  {
    if s == [] {
    } else {
      assert s == [s[0]] + s[1..];
      SortSorts(le, s[1..]);
      InsertKeeps(le, s[0], Sort(le, s[1..]));
    }
  }

  /** No two different elements of `s` are equivalent in the order. */
  ghost predicate Strict<T>(le: (T, T) -> bool, s: seq<T>) {
    forall a, b :: a in s && b in s && le(a, b) && le(b, a) ==> a == b
  }

  lemma HeadsAgree<T>(le: (T, T) -> bool, s: seq<T>, t: seq<T>)
    requires SortedBy(le, s) && SortedBy(le, t) && multiset(s) == multiset(t) && Strict(le, s)
    requires s != [] && t != []
    ensures s[0] == t[0]
  {
    assert s[0] in multiset(t) && t[0] in multiset(s);
    var i :| 0 <= i < |t| && t[i] == s[0];
    var j :| 0 <= j < |s| && s[j] == t[0];
    if i > 0 && j > 0 {
      assert le(t[0], t[i]) && le(s[0], s[j]);
    }
  }

  lemma TailBag<T>(s: seq<T>)
    requires s != []
    ensures multiset(s[1..]) == multiset(s) - multiset{s[0]}
  {
    assert s == [s[0]] + s[1..];
  }

  lemma MiddleBag<T>(s: seq<T>, i: nat)
    requires i < |s|
    ensures multiset(s) == multiset(s[..i] + s[i + 1..]) + multiset{s[i]}
  {
    assert s == s[..i] + [s[i]] + s[i + 1..];
  }

  lemma BagCancel<T>(a: multiset<T>, b: multiset<T>, x: T)
    requires a + multiset{x} == b + multiset{x}
    ensures a == b
  {
    assert a == (a + multiset{x}) - multiset{x};
    assert b == (b + multiset{x}) - multiset{x};
  }

  /** Two rearrangements of each other stay so when the last element of one is dropped from both. */
  lemma DropLast<T>(a: seq<T>, b: seq<T>) returns (i: nat)
    requires multiset(a) == multiset(b) && a != []
    ensures i < |b| && b[i] == a[|a| - 1] && multiset(a[..|a| - 1]) == multiset(b[..i] + b[i + 1..])
  {
    var n := |a| - 1;
    assert a[n] in multiset(b);
    i :| 0 <= i < |b| && b[i] == a[n];
    MiddleBag(a, n);
    MiddleBag(b, i);
    assert a[..n] + a[n + 1..] == a[..n];
    BagCancel(multiset(a[..n]), multiset(b[..i] + b[i + 1..]), a[n]);
  }

  lemma {:induction false} SortedUnique<T>(le: (T, T) -> bool, s: seq<T>, t: seq<T>)
    requires SortedBy(le, s) && SortedBy(le, t) && multiset(s) == multiset(t) && Strict(le, s)
    ensures s == t
  {
    SameLength(s, t);
    if s == [] {
    } else {
      TailsCompare(le, s, t);
      hide SortedBy, Strict;
      SortedUnique(le, s[1..], t[1..]);
      Rejoin(s, t);
    }
  }

  /** Heads agree, and the tails are as the whole. */
  lemma TailsCompare<T>(le: (T, T) -> bool, s: seq<T>, t: seq<T>)
    requires SortedBy(le, s) && SortedBy(le, t) && multiset(s) == multiset(t) && Strict(le, s)
    requires s != [] && t != []
    ensures s[0] == t[0]
    ensures SortedBy(le, s[1..]) && SortedBy(le, t[1..]) && multiset(s[1..]) == multiset(t[1..]) && Strict(le, s[1..])
  {
    HeadsAgree(le, s, t);
    TailKeeps(le, s);
    TailKeeps(le, t);
    hide SortedBy, Strict;
    TailBag(s);
    TailBag(t);
  }

  lemma Rejoin<T>(s: seq<T>, t: seq<T>)
    requires s != [] && t != [] && s[0] == t[0] && s[1..] == t[1..]
    ensures s == t
  {
    assert s == [s[0]] + s[1..] && t == [t[0]] + t[1..];
  }

  lemma SameLength<T>(s: seq<T>, t: seq<T>)
    ensures multiset(s) == multiset(t) ==> |s| == |t|
  {
    assert |multiset(s)| == |s| && |multiset(t)| == |t|;
  }

  lemma TailKeeps<T>(le: (T, T) -> bool, s: seq<T>)
    requires s != []
    ensures SortedBy(le, s) ==> SortedBy(le, s[1..])
    ensures Strict(le, s) ==> Strict(le, s[1..])
  {
  }

  /** Sorting in a strict order forgets the order of its input. */
  lemma SortCanonical<T(!new)>(le: (T, T) -> bool, s: seq<T>, t: seq<T>)
    requires Total(le) && Strict(le, s) && multiset(s) == multiset(t)
    ensures Sort(le, s) == Sort(le, t)
  {
    SortSorts(le, s);
    SortSorts(le, t);
    assert forall a :: a in Sort(le, s) <==> a in multiset(s);
    SortedUnique(le, Sort(le, s), Sort(le, t));
  }

  /** The elements of a set, in no particular order. */
  ghost function Listed<T>(s: set<T>): (l: seq<T>)
    ensures multiset(l) == multiset(s)
  {
    if s == {} then []
    else
      var x :| x in s;
      assert s == {x} + (s - {x});
      [x] + Listed(s - {x})
  }

  lemma SortMembers<T(!new)>(le: (T, T) -> bool, s: seq<T>, x: T)
    requires Total(le)
    ensures x in Sort(le, s) <==> x in s
  {
    SortSorts(le, s);
    assert x in multiset(Sort(le, s)) <==> x in multiset(s);
  }

  lemma ListedMembers<T>(s: set<T>, x: T)
    ensures x in Listed(s) <==> x in s
  {
    assert x in multiset(Listed(s)) <==> x in multiset(s);
  }

  lemma TwiceInBag<T>(s: seq<T>, i: nat, j: nat)
    requires i < j < |s| && s[i] == s[j]
    ensures multiset(s)[s[i]] >= 2
  {
    assert s == s[..j] + [s[j]] + s[j + 1..];
    assert s[..j][i] in multiset(s[..j]);
  }

  lemma ListedDistinct<T>(s: set<T>)
    ensures forall i, j :: 0 <= i < j < |Listed(s)| ==> Listed(s)[i] != Listed(s)[j]
  {
    var l := Listed(s);
    forall i, j | 0 <= i < j < |l|
      ensures l[i] != l[j]
    {
      if l[i] == l[j] {
        TwiceInBag(l, i, j);
        assert false;
      }
    }
  }

  lemma BagOfSet<T>(s: set<T>, x: T)
    requires x in s
    ensures multiset(s) == multiset(s - {x}) + multiset{x}
  {
  }

  // ----- strings ---------------------------------------------------------------------------------

  /** Code point by code point, a prefix first. */
  predicate StringLe(a: string, b: string) {
    a == [] || (b != [] && (a[0] < b[0] || (a[0] == b[0] && StringLe(a[1..], b[1..]))))
  }

  lemma {:induction false} StringLeTotal(a: string, b: string)
    ensures StringLe(a, b) || StringLe(b, a)
  {
    if a == [] || b == [] {
    } else {
      StringLeTotal(a[1..], b[1..]);
    }
  }

  lemma {:induction false} StringLeTransitive(a: string, b: string, c: string)
    requires StringLe(a, b) && StringLe(b, c)
    ensures StringLe(a, c)
  {
    if a == [] || a[0] < b[0] || b[0] < c[0] {
    } else {
      StringLeTransitive(a[1..], b[1..], c[1..]);
    }
  }

  lemma {:induction false} StringLeAntisymmetric(a: string, b: string)
    requires StringLe(a, b) && StringLe(b, a)
    ensures a == b
  {
    if a == [] || b == [] {
    } else {
      StringLeAntisymmetric(a[1..], b[1..]);
      assert a == [a[0]] + a[1..] && b == [b[0]] + b[1..];
    }
  }

  lemma StringOrder()
    ensures Total(StringLe)
    ensures forall a, b :: StringLe(a, b) && StringLe(b, a) ==> a == b
  {
    forall a, b ensures StringLe(a, b) || StringLe(b, a) { StringLeTotal(a, b); }
    forall a, b, c | StringLe(a, b) && StringLe(b, c) ensures StringLe(a, c) { StringLeTransitive(a, b, c); }
    forall a, b | StringLe(a, b) && StringLe(b, a) ensures a == b { StringLeAntisymmetric(a, b); }
  }

  /** `a` and `b` first differ at `n`, and `a` has the smaller character there. */
  predicate SmallerAt(a: string, b: string, n: nat) {
    n < |a| && n < |b| && a[..n] == b[..n] && a[n] < b[n]
  }

  /** `a` is a proper beginning of `b`, or has the smaller character where they first differ. */
  ghost predicate Precedes(a: string, b: string) {
    (a <= b && a != b) || exists n: nat :: SmallerAt(a, b, n)
  }

  lemma {:induction false} StringLeIff(a: string, b: string)
    ensures StringLe(a, b) <==> a == b || Precedes(a, b)
  {
    if a == [] || b == [] {
    } else if a[0] != b[0] {
      assert a[0] < b[0] ==> SmallerAt(a, b, 0);
    } else {
      StringLeIff(a[1..], b[1..]);
      PrecedesInTail(a, b);
      assert a == [a[0]] + a[1..] && b == [b[0]] + b[1..];
    }
  }

  lemma SmallerInTail(a: string, b: string, n: nat)
    requires a != [] && b != [] && a[0] == b[0]
    ensures SmallerAt(a, b, n + 1) <==> SmallerAt(a[1..], b[1..], n)
  {
    if n < |a| - 1 && n < |b| - 1 {
      assert a[..n + 1] == [a[0]] + a[1..][..n] && b[..n + 1] == [b[0]] + b[1..][..n];
    }
  }

  lemma PrecedesInTail(a: string, b: string)
    requires a != [] && b != [] && a[0] == b[0]
    ensures Precedes(a, b) <==> Precedes(a[1..], b[1..])
  {
    if n: nat :| SmallerAt(a, b, n) {
      SmallerInTail(a, b, n - 1);
    }
    if n: nat :| SmallerAt(a[1..], b[1..], n) {
      SmallerInTail(a, b, n);
    }
    assert a == [a[0]] + a[1..] && b == [b[0]] + b[1..];
  }

  /** The elements of an ordered set in ascending order. */
  ghost function Ascending(s: set<string>): seq<string> {
    Sort(StringLe, Listed(s))
  }

  method CollectAscending(s: set<string>) returns (l: seq<string>)
    ensures l == Ascending(s)
  {
    var rest := s;
    l := [];
    while rest != {}
      invariant rest <= s && multiset(l) == multiset(s - rest)
      decreases |rest|
    {
      var x :| x in rest;
      assert s - (rest - {x}) == (s - rest) + {x};
      l, rest := l + [x], rest - {x};
    }
    assert s - rest == s;
    StringOrder();
    SortCanonical(StringLe, l, Listed(s));
    l := Sort(StringLe, l);
  }

  lemma AscendingMembers(s: set<string>, x: string)
    ensures x in Ascending(s) <==> x in s
  {
    StringOrder();
    SortMembers(StringLe, Listed(s), x);
    ListedMembers(s, x);
  }

  lemma AscendingWith(s: set<string>, a: string)
    requires a !in s
    ensures var l, i := Ascending(s), Position(StringLe, a, Ascending(s));
      Ascending(s + {a}) == l[..i] + [a] + l[i..]
  {
    StringOrder();
    assert multiset(s + {a}) == multiset{a} + multiset(s);
    var l := Listed(s);
    assert ([a] + l)[0] == a && ([a] + l)[1..] == l;
    SortCanonical(StringLe, [a] + l, Listed(s + {a}));
    InsertAtPosition(StringLe, a, Ascending(s));
  }
}
