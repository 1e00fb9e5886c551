/** Concatenating the images of a sequence's elements, in order. */
module Seqs {

  function ConcatMap<T, U>(f: T -> seq<U>, xs: seq<T>): seq<U>
    decreases |xs|
  {
    if xs == [] then [] else ConcatMap(f, xs[..|xs| - 1]) + f(xs[|xs| - 1])
  }

  lemma ConcatMapSnoc<T, U>(f: T -> seq<U>, xs: seq<T>)
    requires xs != []
    ensures ConcatMap(f, xs) == ConcatMap(f, xs[..|xs| - 1]) + f(xs[|xs| - 1])
  {
  }

  lemma {:induction false} ConcatMapAppend<T, U>(f: T -> seq<U>, a: seq<T>, b: seq<T>)
    ensures ConcatMap(f, a + b) == ConcatMap(f, a) + ConcatMap(f, b)
    decreases |b|
  {
    if b == [] {
      assert a + b == a;
    } else {
      assert (a + b)[..|a + b| - 1] == a + b[..|b| - 1];
      ConcatMapAppend(f, a, b[..|b| - 1]);
    }
  }

  /** A property every image element has holds of every element of the concatenation. */
  lemma {:induction false} ConcatMapAll<T, U>(f: T -> seq<U>, p: U -> bool, xs: seq<T>)
    requires forall i, j | 0 <= i < |xs| && 0 <= j < |f(xs[i])| :: p(f(xs[i])[j])
    ensures forall j | 0 <= j < |ConcatMap(f, xs)| :: p(ConcatMap(f, xs)[j])
    decreases |xs|
  {
    if xs != [] {
      var init := xs[..|xs| - 1];
      assert forall i | 0 <= i < |init| :: init[i] == xs[i];
      ConcatMapAll(f, p, init);
      var a, b := ConcatMap(f, init), f(xs[|xs| - 1]);
      assert forall j | |a| <= j < |a| + |b| :: (a + b)[j] == b[j - |a|];
    }
  }

  lemma Associate<T>(a: seq<T>, b: seq<T>, c: seq<T>)
    ensures a + (b + c) == (a + b) + c
  {
  }

  lemma SuffixOfSuffix<T>(s: seq<T>, i: nat, n: nat)
    requires i + n <= |s|
    ensures s[i..][n..] == s[i + n..]
  {
  }
}
