/** Facts about sequences that the verifier does not look for by itself. */
module Sequences {

  predicate Distinct<T(==)>(s: seq<T>) { forall i, j :: 0 <= i < j < |s| ==> s[i] != s[j] }

  lemma Assoc<T>(a: seq<T>, b: seq<T>, c: seq<T>)
    ensures (a + b) + c == a + (b + c)
  {
  }

  lemma Regroup<T>(a: seq<T>, b: seq<T>, c: seq<T>, d: seq<T>)
    ensures a + (b + c) + d == (a + b) + (c + d) && a + b + c + d == (a + b) + (c + d)
  {
  }

  /** u is s with one occurrence of x taken out. */
  predicate OneOut<T(==)>(s: seq<T>, x: T, u: seq<T>) {
    exists i :: 0 <= i < |s| && s[i] == x && u == s[..i] + s[i + 1..]
  }

  lemma OneOutAt<T>(a: seq<T>, x: T, b: seq<T>)
    ensures OneOut(a + [x] + b, x, a + b)
  {
    var s := a + [x] + b;
    assert s[|a|] == x && s[..|a|] == a && s[|a| + 1..] == b;
  }
}
