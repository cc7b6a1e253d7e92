/** New coverage, byte by byte: what the word-at-a-time code of coverage-64.h and coverage-32.h stands for. */
module CoverageBytes {
  import opened Bags

  /** 0: nothing new, 1: a new hit count, 2: a byte of the map that was never hit before. */
  function Novelty(c: bv8, v: bv8): (n: nat)
    ensures n <= 2
  {
    if c & v == 0 then 0 else if v == 0xff then 2 else 1
  }

  /** The two bytes have a bit in common. */
  predicate Meets(c: bv8, v: bv8) {
    c & v != 0
  }

  function Or(a: bv8, b: bv8): bv8 {
    a | b
  }

  function AndNot(v: bv8, c: bv8): bv8 {
    v & !c
  }

  lemma NewByte(c: bv8, v: bv8)
    ensures Novelty(c, v) > 0 <==> Meets(c, v)
  {
  }

  function Max(a: nat, b: nat): nat {
    if a < b then b else a
  }

  /** The largest novelty of any byte. */
  function NoveltyOf(cs: seq<bv8>, vs: seq<bv8>): (n: nat)
    requires |cs| == |vs|
    ensures n <= 2
  {
    if cs == [] then 0
    else Max(NoveltyOf(cs[..|cs| - 1], vs[..|vs| - 1]), Novelty(cs[|cs| - 1], vs[|vs| - 1]))
  }

  /** The virgin bytes without the bits of the trace. */
  function Clear(cs: seq<bv8>, vs: seq<bv8>): (r: seq<bv8>)
    requires |cs| == |vs|
    ensures |r| == |vs|
  {
    seq(|vs|, i requires 0 <= i < |vs| => AndNot(vs[i], cs[i]))
  }

  function MapBytes(f: bv8 -> bv8, bs: seq<bv8>): (r: seq<bv8>)
    ensures |r| == |bs|
  {
    seq(|bs|, i requires 0 <= i < |bs| => f(bs[i]))
  }

  lemma {:induction false} NoveltyConcat(a: seq<bv8>, b: seq<bv8>, c: seq<bv8>, d: seq<bv8>)
    requires |a| == |c| && |b| == |d|
    ensures NoveltyOf(a + b, c + d) == Max(NoveltyOf(a, c), NoveltyOf(b, d))
    decreases |b|
  {
    hide Novelty;
    if b == [] {
      assert a + b == a && c + d == c;
    } else {
      var n := |a| + |b| - 1;
      assert (a + b)[..n] == a + b[..|b| - 1] && (c + d)[..n] == c + d[..|d| - 1];
      NoveltyConcat(a, b[..|b| - 1], c, d[..|d| - 1]);
    }
  }

  /** Something is new exactly when some byte has a bit that is still virgin. */
  lemma {:induction false} NewIffMeets(cs: seq<bv8>, vs: seq<bv8>)
    requires |cs| == |vs|
    ensures NoveltyOf(cs, vs) > 0 <==> exists i :: 0 <= i < |cs| && Meets(cs[i], vs[i])
  {
    hide Novelty, Meets;
    if cs != [] {
      var n := |cs| - 1;
      NewIffMeets(cs[..n], vs[..n]);
      NewByte(cs[n], vs[n]);
      if i :| 0 <= i < n && Meets(cs[..n][i], vs[..n][i]) {
        assert Meets(cs[i], vs[i]);
      }
      if i :| 0 <= i < n && Meets(cs[i], vs[i]) {
        assert Meets(cs[..n][i], vs[..n][i]);
      }
    }
  }

  // ---------- Runs: any sequence of traces ----------

  /** The virgin map after the traces, oldest first. */
  function After(traces: seq<seq<bv8>>, vs: seq<bv8>): (r: seq<bv8>)
    requires forall k | 0 <= k < |traces| :: |traces[k]| == |vs|
    ensures |r| == |vs|
  {
    if traces == [] then vs else Clear(traces[|traces| - 1], After(traces[..|traces| - 1], vs))
  }

  /** All bits that any of the traces has at position `i`. */
  function UnionAt(traces: seq<seq<bv8>>, i: nat): bv8
    requires forall k | 0 <= k < |traces| :: i < |traces[k]|
  {
    if traces == [] then 0 else Or(UnionAt(traces[..|traces| - 1], i), traces[|traces| - 1][i])
  }

  lemma ClearTwice(v: bv8, u: bv8, c: bv8)
    ensures AndNot(AndNot(v, u), c) == AndNot(v, Or(u, c)) && AndNot(v, 0) == v
  {
  }

  /** The final map is the initial one minus the union of all traces. */
  lemma {:induction false} AfterIsUnion(traces: seq<seq<bv8>>, vs: seq<bv8>, i: nat)
    requires (forall k | 0 <= k < |traces| :: |traces[k]| == |vs|) && i < |vs|
    ensures After(traces, vs)[i] == AndNot(vs[i], UnionAt(traces, i))
  {
    hide Or, AndNot;
    if traces != [] {
      var n := |traces| - 1;
      AfterIsUnion(traces[..n], vs, i);
      ClearTwice(vs[i], UnionAt(traces[..n], i), traces[n][i]);
    } else {
      ClearTwice(vs[i], 0, 0);
    }
  }

  lemma OrCommutes(a: bv8, b: bv8, c: bv8)
    ensures Or(Or(a, b), c) == Or(Or(a, c), b)
  {
  }

  /** Taking one trace out of the sequence takes its bits out of the union. */
  lemma {:induction false} UnionRemove(traces: seq<seq<bv8>>, j: nat, i: nat)
    requires (forall k | 0 <= k < |traces| :: i < |traces[k]|) && j < |traces|
    ensures UnionAt(traces, i) == Or(UnionAt(Without(traces, j), i), traces[j][i])
    decreases |traces|
  {
    hide Or;
    var n := |traces| - 1;
    var rest := Without(traces, j);
    if j == n {
      assert rest == traces[..n];
    } else {
      UnionRemove(traces[..n], j, i);
      assert rest[..n - 1] == Without(traces[..n], j);
      assert rest[n - 1] == traces[n];
      OrCommutes(UnionAt(rest[..n - 1], i), traces[j][i], traces[n][i]);
    }
  }

  lemma {:induction false} UnionOrder(x: seq<seq<bv8>>, y: seq<seq<bv8>>, i: nat)
    requires multiset(x) == multiset(y)
    requires (forall k | 0 <= k < |x| :: i < |x[k]|) && forall k | 0 <= k < |y| :: i < |y[k]|
    ensures UnionAt(x, i) == UnionAt(y, i)
    decreases |x|
  {
    hide Or, Without;
    if x == [] {
      NoElements(x, y);
    } else {
      var j := MatchLast(x, y);
      SubLengths(y, j, i);
      UnionOrder(x[..|x| - 1], Without(y, j), i);
      UnionRemove(y, j, i);
    }
  }

  lemma SubLengths(y: seq<seq<bv8>>, j: nat, i: nat)
    requires (forall k | 0 <= k < |y| :: i < |y[k]|) && j < |y|
    ensures forall k | 0 <= k < |Without(y, j)| :: i < |Without(y, j)[k]|
  {
  }

  /** The final virgin map does not depend on the order of the traces. */
  lemma OrderIndependent(x: seq<seq<bv8>>, y: seq<seq<bv8>>, vs: seq<bv8>)
    requires multiset(x) == multiset(y)
    requires (forall k | 0 <= k < |x| :: |x[k]| == |vs|) && forall k | 0 <= k < |y| :: |y[k]| == |vs|
    ensures After(x, vs) == After(y, vs)
  {
    hide After, UnionAt, Or, AndNot;
    forall i | 0 <= i < |vs|
      ensures After(x, vs)[i] == After(y, vs)[i]
    {
      AfterIsUnion(x, vs, i);
      AfterIsUnion(y, vs, i);
      UnionOrder(x, y, i);
    }
  }

  lemma ClearedBit(v: bv8, u: bv8, c: bv8)
    ensures !Meets(c, AndNot(v, Or(u, c)))
  {
  }

  /** A trace that was seen before reports nothing new, whatever came in between. */
  lemma ReplayReportsNothing(traces: seq<seq<bv8>>, vs: seq<bv8>, j: nat)
    requires (forall k | 0 <= k < |traces| :: |traces[k]| == |vs|) && j < |traces|
    ensures NoveltyOf(traces[j], After(traces, vs)) == 0
  {
    hide After, UnionAt, NoveltyOf, Meets, Or, AndNot;
    NewIffMeets(traces[j], After(traces, vs));
    forall i | 0 <= i < |vs|
      ensures !Meets(traces[j][i], After(traces, vs)[i])
    {
      AfterIsUnion(traces, vs, i);
      UnionRemove(traces, j, i);
      ClearedBit(vs[i], UnionAt(Without(traces, j), i), traces[j][i]);
    }
  }

  /** A non-zero byte of the trace that is pristine in the virgin map. */
  predicate Pristine(c: bv8, v: bv8) {
    c != 0 && v == 0xff
  }

  lemma {:induction false} TwoIffPristine(cs: seq<bv8>, vs: seq<bv8>)
    requires |cs| == |vs|
    ensures NoveltyOf(cs, vs) == 2 <==> exists i :: 0 <= i < |cs| && Pristine(cs[i], vs[i])
  {
    hide Novelty, Pristine;
    if cs != [] {
      var n := |cs| - 1;
      TwoIffPristine(cs[..n], vs[..n]);
      ByteTwo(cs[n], vs[n]);
      if i :| 0 <= i < n && Pristine(cs[..n][i], vs[..n][i]) {
        assert Pristine(cs[i], vs[i]);
      }
      if i :| 0 <= i < n && Pristine(cs[i], vs[i]) {
        assert Pristine(cs[..n][i], vs[..n][i]);
      }
    }
  }

  lemma ByteTwo(c: bv8, v: bv8)
    ensures Novelty(c, v) == 2 <==> Pristine(c, v)
  {
  }

  // ---------- What 1 and 2 mean over a run ----------

  ghost predicate Untouched(vs: seq<bv8>) {
    forall i | 0 <= i < |vs| :: vs[i] == 0xff
  }

  /** Byte `i` of the map was not hit by any of the traces. */
  ghost predicate NeverHit(traces: seq<seq<bv8>>, i: nat) {
    forall j | 0 <= j < |traces| :: i < |traces[j]| ==> traces[j][i] == 0
  }

  /** The trace `cs` hits a byte that none of the traces before it hit. */
  ghost predicate HitsFirst(traces: seq<seq<bv8>>, cs: seq<bv8>) {
    exists i :: 0 <= i < |cs| && cs[i] != 0 && NeverHit(traces, i)
  }

  lemma OrZero(a: bv8, b: bv8)
    ensures Or(a, b) == 0 <==> a == 0 && b == 0
  {
  }

  lemma {:induction false} UnionZero(traces: seq<seq<bv8>>, i: nat)
    requires forall k | 0 <= k < |traces| :: i < |traces[k]|
    ensures UnionAt(traces, i) == 0 <==> NeverHit(traces, i)
  {
    hide Or;
    if traces != [] {
      var n := |traces| - 1;
      UnionZero(traces[..n], i);
      OrZero(UnionAt(traces[..n], i), traces[n][i]);
      if NeverHit(traces, i) {
        assert traces[n][i] == 0;
        assert NeverHit(traces[..n], i) by {
          forall j | 0 <= j < n ensures traces[..n][j][i] == 0 {
            assert traces[j][i] == 0;
          }
        }
      }
      if NeverHit(traces[..n], i) && traces[n][i] == 0 {
        forall j | 0 <= j < |traces| ensures traces[j][i] == 0 {
          if j < n {
            assert traces[..n][j][i] == 0;
          }
        }
      }
    }
  }

  lemma LeftFull(v: bv8, u: bv8)
    requires v == 0xff
    ensures AndNot(v, u) == 0xff <==> u == 0
  {
  }

  /**
   On a map that starts untouched, the result is 2 exactly when the trace hits a byte that no earlier
   trace hit.
   */
  lemma TwoIffFirstHit(traces: seq<seq<bv8>>, vs: seq<bv8>, cs: seq<bv8>)
    requires Untouched(vs) && |cs| == |vs| && forall k | 0 <= k < |traces| :: |traces[k]| == |vs|
    ensures NoveltyOf(cs, After(traces, vs)) == 2 <==> HitsFirst(traces, cs)
  {
    hide NoveltyOf, After, AndNot, NeverHit, Pristine;
    var left := After(traces, vs);
    TwoIffPristine(cs, left);
    forall i | 0 <= i < |cs|
      ensures Pristine(cs[i], left[i]) <==> cs[i] != 0 && NeverHit(traces, i)
    {
      AfterIsUnion(traces, vs, i);
      UnionZero(traces, i);
      LeftFull(vs[i], UnionAt(traces, i));
      PristineIs(cs[i], left[i]);
    }
    if i :| 0 <= i < |cs| && Pristine(cs[i], left[i]) {
      assert cs[i] != 0 && NeverHit(traces, i);
    }
    if i :| 0 <= i < |cs| && cs[i] != 0 && NeverHit(traces, i) {
      assert Pristine(cs[i], left[i]);
    }
  }

  lemma PristineIs(c: bv8, v: bv8)
    ensures Pristine(c, v) <==> c != 0 && v == 0xff
  {
  }
}
