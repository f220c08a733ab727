/** Sequence facts that the larger proofs use one at a time. */
module Seqs {

  lemma Assoc<T>(a: seq<T>, b: seq<T>, c: seq<T>)
    ensures a + b + c == a + (b + c)
  {}

  lemma Snoc<T>(s: seq<T>)
    requires s != []
    ensures s[..|s| - 1] + [s[|s| - 1]] == s
  {}

  lemma SplitAt<T>(s: seq<T>, k: nat)
    requires k <= |s|
    ensures s[..k] + s[k..] == s
  {}

  lemma EmptyLeft<T>(s: seq<T>)
    ensures [] + s == s
  {}

  lemma EmptyRight<T>(s: seq<T>)
    ensures s + [] == s
  {}

  lemma ButLast<T>(a: seq<T>, b: seq<T>)
    requires b != []
    ensures (a + b)[..|a + b| - 1] == a + b[..|b| - 1]
  {}

  lemma ButLastSnoc<T>(a: seq<T>, x: T)
    ensures (a + [x])[..|a|] == a
  {}

  lemma Two<T>(a: T, b: T)
    ensures [a] + [b] == [a, b]
  {}

  lemma Three<T>(a: T, b: T, c: T)
    ensures [a, b] + [c] == [a, b, c]
  {}

  lemma SliceSnoc<T>(s: seq<T>, from: nat, to: nat)
    requires from <= to < |s|
    ensures s[from..to + 1] == s[from..to] + [s[to]]
  {}

  lemma FourFromThree<T>(s: seq<T>, a: T, b: T, c: T, d: T)
    ensures s + [a, b, c, d] == s + [a, b, c] + [d]
  {}
}
