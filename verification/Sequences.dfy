/** Sequences as lists of elements. */
module Sequences {
  function SetOf(s: seq<string>): set<string> {
    set x | x in s
  }

  lemma Regroup<T>(a: seq<T>, b: seq<T>, c: seq<T>)
    ensures a + (b + c) == a + b + c
  {
  }
}
