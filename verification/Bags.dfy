/** Sequences up to reordering. */
module Bags {

  /** `s` without the element at `j`. */
  function Without<T>(s: seq<T>, j: nat): seq<T>
    requires j < |s|
  {
    s[..j] + s[j + 1..]
  }

  lemma WithoutBag<T>(s: seq<T>, j: nat)
    requires j < |s|
    ensures multiset(Without(s, j)) == multiset(s) - multiset{s[j]}
  {
    assert s == s[..j] + [s[j]] + s[j + 1..];
  }

  /** The last element of a sequence has a place in every reordering, and the remainders are reorderings. */
  lemma MatchLast<T>(x: seq<T>, y: seq<T>) returns (j: nat)
    requires x != [] && multiset(x) == multiset(y)
    ensures j < |y| && y[j] == x[|x| - 1]
    ensures multiset(x[..|x| - 1]) == multiset(Without(y, j))
  {
    var n := |x| - 1;
    assert x[n] in multiset(x);
    assert x[n] in multiset(y);
    j :| 0 <= j < |y| && y[j] == x[n];
    WithoutBag(x, n);
    WithoutBag(y, j);
    assert Without(x, n) == x[..n];
  }

  lemma NoElements<T>(x: seq<T>, y: seq<T>)
    requires x == [] && multiset(x) == multiset(y)
    ensures y == []
  {
    assert |multiset(y)| == 0;
  }
}
