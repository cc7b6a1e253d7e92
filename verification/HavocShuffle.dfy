/** The block shuffle of MUT_SHUFFLE: each position is swapped with a lower one, never with itself. */
module HavocShuffle {

  function SwapAt<T>(s: seq<T>, i: nat, j: nat): (r: seq<T>)
    requires i < |s| && j < |s|
    ensures |r| == |s|
  {
    s[i := s[j]][j := s[i]]
  }

  /** The partners drawn by the loop: position i is swapped with js[i] < i. */
  ghost predicate Draws(js: seq<nat>, n: nat) {
    |js| == n && forall i | 1 <= i < n :: js[i] < i
  }

  /** The loop from position `i` down to 1. */
  ghost function Shuffled<T>(s: seq<T>, i: nat, js: seq<nat>): (r: seq<T>)
    requires i < |s| && Draws(js, |s|)
    ensures |r| == |s|
    decreases i
  {
    if i == 0 then s else Shuffled(SwapAt(s, i, js[i]), i - 1, js)
  }

  /** The partners of the positions above `i` are drawn. */
  ghost predicate DrawsAbove(js: seq<nat>, n: nat, i: nat) {
    |js| == n && forall k | i < k < n :: js[k] < k
  }

  /** The block when the loop has handled the positions above `i`. */
  ghost function Above<T>(s: seq<T>, i: nat, js: seq<nat>): (r: seq<T>)
    requires i < |s| && DrawsAbove(js, |s|, i)
    ensures |r| == |s|
    decreases |s| - i
  {
    if i + 1 == |s| then s else SwapAt(Above(s, i + 1, js), i + 1, js[i + 1])
  }

  /** Drawing the partner of `i` does not change what happened above. */
  lemma {:induction false} AboveKept<T>(s: seq<T>, i: nat, k: nat, js: seq<nat>, j: nat)
    requires k <= i < |s| && DrawsAbove(js, |s|, i)
    ensures Above(s, i, js[k := j]) == Above(s, i, js)
    decreases |s| - i
  {
    if i + 1 < |s| {
      AboveKept(s, i + 1, k, js, j);
    }
  }

  /** Finishing the loop from the middle is the whole loop. */
  lemma {:induction false} FinishFrom<T>(s: seq<T>, i: nat, js: seq<nat>)
    requires i < |s| && Draws(js, |s|)
    ensures Shuffled(Above(s, i, js), i, js) == Shuffled(s, |s| - 1, js)
    decreases |s| - i
  {
    if i + 1 < |s| {
      FinishFrom(s, i + 1, js);
    }
  }

  /** The exchange of i and j. */
  function Exchange(i: nat, j: nat, x: nat): nat {
    if x == i then j else if x == j then i else x
  }

  /** Where the shuffle of positions 0 .. i takes each position's new content from. */
  ghost function Source(i: nat, js: seq<nat>): (p: seq<nat>)
    requires i < |js| && Draws(js, |js|)
    ensures |p| == i + 1 && forall k | 0 <= k <= i :: p[k] <= i
  {
    if i == 0 then [0]
    else var q := Source(i - 1, js);
         seq<nat>(i + 1, k requires 0 <= k <= i => Exchange(i, js[i], if k < i then q[k] else i))
  }

  lemma SourceStep(i: nat, js: seq<nat>, k: nat)
    requires 0 < i < |js| && Draws(js, |js|) && k <= i
    ensures Source(i, js)[k] == if k == i then js[i] else Exchange(i, js[i], Source(i - 1, js)[k])
  {
    var q := Source(i - 1, js);
    var p := seq<nat>(i + 1, k requires 0 <= k <= i => Exchange(i, js[i], if k < i then q[k] else i));
    assert Source(i, js) == p;
    assert p[k] == Exchange(i, js[i], if k < i then q[k] else i);
  }

  lemma {:induction false} ShuffledFrom<T>(s: seq<T>, i: nat, js: seq<nat>, k: nat)
    requires i < |s| && Draws(js, |s|) && k < |s|
    ensures Shuffled(s, i, js)[k] == if k <= i then s[Source(i, js)[k]] else s[k]
    decreases i
  {
    if i > 0 {
      var s' := SwapAt(s, i, js[i]);
      ShuffledFrom(s', i - 1, js, k);
      if k <= i {
        SourceStep(i, js, k);
      }
      if k < i {
        SwapIsExchange(s, i, js[i], Source(i - 1, js)[k]);
      }
    }
  }

  lemma SwapIsExchange<T>(s: seq<T>, i: nat, j: nat, x: nat)
    requires j < i < |s| && x < |s|
    ensures Exchange(i, j, x) < |s| && SwapAt(s, i, j)[x] == s[Exchange(i, j, x)]
  {
  }

  lemma SwapBag<T>(s: seq<T>, i: nat, j: nat)
    requires j < i < |s|
    ensures multiset(SwapAt(s, i, j)) == multiset(s)
  {
  }

  lemma {:induction false} ShuffledBag<T>(s: seq<T>, i: nat, js: seq<nat>)
    requires i < |s| && Draws(js, |s|)
    ensures multiset(Shuffled(s, i, js)) == multiset(s)
    decreases i
  {
    if i > 0 {
      SwapBag(s, i, js[i]);
      ShuffledBag(SwapAt(s, i, js[i]), i - 1, js);
    }
  }

  /** The element after position `m` of the circular list `c`. */
  function Next(c: seq<nat>, m: nat): nat
    requires m < |c|
  {
    if m + 1 < |c| then c[m + 1] else c[0]
  }

  /** `c` lists all positions of `p` once, and `p` leads from each to the next, and back to the first. */
  ghost predicate SingleCycle(p: seq<nat>, c: seq<nat>) {
    && |c| == |p|
    && (forall m | 0 <= m < |c| :: c[m] < |p|)
    && (forall m | 0 <= m < |c| :: p[c[m]] == Next(c, m))
    && (forall m, n | 0 <= m < n < |c| :: c[m] != c[n])
    && (forall x | 0 <= x < |p| :: x in c)
  }

  /** `i` put in front of position `a` of the list. */
  function PutBefore(c: seq<nat>, a: nat, i: nat): (d: seq<nat>)
    requires a < |c|
    ensures |d| == |c| + 1
  {
    c[..a] + [i] + c[a..]
  }

  lemma NextInserted(c: seq<nat>, a: nat, i: nat, m: nat)
    requires a < |c| && m <= |c|
    ensures var d := PutBefore(c, a, i);
            && d[m] == (if m < a then c[m] else if m == a then i else c[m - 1])
            && Next(d, m) == (if m == a then c[a]
                              else var k := if m < a then m else m - 1;
                                   if (if k + 1 < |c| then k + 1 else 0) == a then i else Next(c, k))
  {
  }

  lemma InsertedDistinct(c: seq<nat>, a: nat, i: nat)
    requires a < |c| && (forall m, n | 0 <= m < n < |c| :: c[m] != c[n]) && forall m | 0 <= m < |c| :: c[m] != i
    ensures var d := PutBefore(c, a, i); forall m, n | 0 <= m < n < |d| :: d[m] != d[n]
  {
  }

  lemma InsertedCovers(c: seq<nat>, a: nat, i: nat, x: nat)
    requires a < |c| && (x == i || x in c)
    ensures x in PutBefore(c, a, i)
  {
    var d := PutBefore(c, a, i);
    if x == i {
      assert d[a] == i;
    } else {
      var m :| 0 <= m < |c| && c[m] == x;
      assert d[if m < a then m else m + 1] == x;
    }
  }

  /** The new position goes into the cycle just before its partner. */
  lemma InsertIntoCycle(q: seq<nat>, c: seq<nat>, p: seq<nat>, j: nat, a: nat) returns (d: seq<nat>)
    requires SingleCycle(q, c) && |p| == |q| + 1 && a < |c| && c[a] == j < |q|
    requires p[|q|] == j
    requires forall k | 0 <= k < |q| :: p[k] == if q[k] == j then |q| else q[k]
    ensures SingleCycle(p, d)
  {
    hide PutBefore, Next;
    var i := |q|;
    d := PutBefore(c, a, i);
    InsertedDistinct(c, a, i);
    forall m | 0 <= m < |d|
      ensures d[m] < |p| && p[d[m]] == Next(d, m)
    {
      NextInserted(c, a, i, m);
      if m != a {
        LeadsTo(q, c, a, if m < a then m else m - 1);
      }
    }
    forall x | 0 <= x < |p|
      ensures x in d
    {
      InsertedCovers(c, a, i, x);
    }
  }

  /** Position k leads to c[a] exactly when a is the place after k. */
  lemma LeadsTo(q: seq<nat>, c: seq<nat>, a: nat, k: nat)
    requires SingleCycle(q, c) && a < |c| && k < |c|
    ensures q[c[k]] == Next(c, k)
    ensures Next(c, k) == c[a] <==> (if k + 1 < |c| then k + 1 else 0) == a
  {
    var n := if k + 1 < |c| then k + 1 else 0;
    if n < a {
      assert c[n] != c[a];
    } else if a < n {
      assert c[a] != c[n];
    }
  }

  /** Whatever partners are drawn, the shuffle is one single cycle over all positions. */
  lemma {:induction false} ShuffleIsCycle(i: nat, js: seq<nat>) returns (c: seq<nat>)
    requires i < |js| && Draws(js, |js|)
    ensures SingleCycle(Source(i, js), c)
  {
    hide SingleCycle, Source;
    if i == 0 {
      c := [0];
      TrivialCycle(js);
    } else {
      var q, p, j := Source(i - 1, js), Source(i, js), js[i];
      var c0 := ShuffleIsCycle(i - 1, js);
      var a := PlaceOf(q, c0, j);
      forall k | 0 <= k <= i
        ensures p[k] == if k == i then j else Exchange(i, j, q[k])
      {
        SourceStep(i, js, k);
      }
      assert p[i] == j;
      c := InsertIntoCycle(q, c0, p, j, a);
    }
  }

  lemma TrivialCycle(js: seq<nat>)
    requires 0 < |js| && Draws(js, |js|)
    ensures SingleCycle(Source(0, js), [0])
  {
    assert [0][0] == 0 && Next([0], 0) == 0;
  }

  lemma PlaceOf(p: seq<nat>, c: seq<nat>, x: nat) returns (a: nat)
    requires SingleCycle(p, c) && x < |p|
    ensures a < |c| && c[a] == x
  {
    assert x in c;
    a :| 0 <= a < |c| && c[a] == x;
  }

  /** No position of a block of at least two keeps its own content. */
  lemma NoFixedPosition(p: seq<nat>, c: seq<nat>, x: nat)
    requires SingleCycle(p, c) && |p| >= 2 && x < |p|
    ensures p[x] != x
  {
    assert x in c;
    var m :| 0 <= m < |c| && c[m] == x;
    assert p[c[m]] == Next(c, m);
    if m + 1 < |c| {
      assert c[m] != c[m + 1];
    } else {
      assert c[0] != c[m];
    }
  }

  /** All three facts for a block of n bytes. */
  lemma ShuffleMeaning<T>(s: seq<T>, js: seq<nat>) returns (p: seq<nat>, c: seq<nat>)
    requires |s| >= 2 && Draws(js, |s|)
    ensures SingleCycle(p, c) && |p| == |s|
    ensures forall k | 0 <= k < |s| :: p[k] < |s| && p[k] != k
    ensures forall k | 0 <= k < |s| :: Shuffled(s, |s| - 1, js)[k] == s[p[k]]
    ensures multiset(Shuffled(s, |s| - 1, js)) == multiset(s)
  {
    var n := |s| - 1;
    p := Source(n, js);
    c := ShuffleIsCycle(n, js);
    ShuffledBag(s, n, js);
    forall k | 0 <= k < |s|
      ensures p[k] != k && Shuffled(s, n, js)[k] == s[p[k]]
    {
      NoFixedPosition(p, c, k);
      ShuffledFrom(s, n, js, k);
    }
  }
}
