/** The map indices of a whole module, and exactly when the caller-context mode keeps them apart. */
module LtoModule {
  import opened Words
  import opened LtoContext
  import opened LtoIndices

  /** Consecutive functions lie behind one another. */
  ghost predicate Chained(ls: seq<Layout>, start: nat, end: nat)
    decreases |ls|
  {
    if ls == [] then start == end
    else ls[0].base == start && Chained(ls[1..], End(ls[0]), end)
  }

  lemma {:induction false} ChainSnoc(ls: seq<Layout>, start: nat, end: nat, l: Layout)
    requires Chained(ls, start, end) && l.base == end
    ensures Chained(ls + [l], start, End(l))
    decreases |ls|
  {
    hide End;
    if ls == [] {
      assert (ls + [l])[1..] == [];
    } else {
      assert (ls + [l])[1..] == ls[1..] + [l];
      ChainSnoc(ls[1..], End(ls[0]), end, l);
    }
  }

  /** The layouts of the functions of a module. */
  ghost predicate Laid(fs: seq<Function>, mode: bool, ls: seq<Layout>, start: nat, end: nat) {
    && |ls| == |fs| && Chained(ls, start, end)
    && forall k | 0 <= k < |ls| :: ls[k] == LayoutOf(fs[k], mode, ls[k].base)
  }

  /** All functions of a module, in order. */
  method InstrumentModule(p: Pass, fs: seq<Function>, update: nat) returns (ls: seq<Layout>)
    modifies p
    ensures Laid(fs, p.ctxMode, ls, old(p.globalId), p.globalId)
  {
    hide End, LayoutOf;
    ls := [];
    ghost var start := p.globalId;
    for i := 0 to |fs|
      invariant Laid(fs[..i], p.ctxMode, ls, start, p.globalId)
    {
      ghost var end := p.globalId;
      var l, bug := p.InstrumentFunction(fs[i], update);
      LayoutBase(fs[i], p.ctxMode, end);
      ChainSnoc(ls, start, end, l);
      ls := ls + [l];
    }
    assert fs[..|fs|] == fs;
  }

  lemma LayoutBase(f: Function, mode: bool, base: nat)
    ensures LayoutOf(f, mode, base).base == base
  {
  }

  /** The IDs of a layout are the numbers behind its base. */
  ghost predicate Numbered(l: Layout) {
    forall s | 0 <= s < |l.sites| :: l.sites[s].id == l.base + 1 + s
  }

  /** Every layout that the pass makes is numbered. */
  lemma LaidNumbered(fs: seq<Function>, mode: bool, ls: seq<Layout>, start: nat, end: nat, k: nat)
    requires Laid(fs, mode, ls, start, end) && k < |ls|
    ensures Numbered(ls[k])
  {
    hide FunctionSites, Chained, PerCaller;
    SitesInOrder(fs[k], mode, ls[k].base);
  }

  /** A site of a layout lies inside its range. */
  lemma IndexInside(l: Layout, context: nat, s: nat)
    requires Numbered(l) && s < |l.sites| && context < l.contexts
    ensures l.base < Index(l, context, s) <= End(l)
  {
    Scaled(|l.sites|, context, l.contexts);
    Scaled(|l.sites|, 0, l.contexts);
  }

  /** Within one function: same site, and same context unless the site leaves the context out. */
  lemma SameIndexIff(l: Layout, c1: nat, s1: nat, c2: nat, s2: nat)
    requires Numbered(l) && s1 < |l.sites| && s2 < |l.sites|
    ensures Index(l, c1, s1) == Index(l, c2, s2) <==> s1 == s2 && (c1 == c2 || !l.sites[s1].shifted)
  {
    if Index(l, c1, s1) == Index(l, c2, s2) {
      var m1, m2 := if l.sites[s1].shifted then c1 else 0, if l.sites[s2].shifted then c2 else 0;
      Copies(|l.sites|, s1, m1, s2, m2);
    }
  }

  lemma EndAfterBase(l: Layout)
    ensures l.base <= End(l)
  {
  }

  lemma {:induction false} ChainGrows(ls: seq<Layout>, start: nat, end: nat)
    requires Chained(ls, start, end)
    ensures start <= end
    decreases |ls|
  {
    hide End;
    if ls != [] {
      EndAfterBase(ls[0]);
      ChainGrows(ls[1..], End(ls[0]), end);
    }
  }

  /** Where the k-th function lies between the start and the end of the module. */
  lemma {:induction false} InChain(ls: seq<Layout>, start: nat, end: nat, k: nat)
    requires Chained(ls, start, end) && k < |ls|
    ensures start <= ls[k].base && End(ls[k]) <= end
    decreases |ls|
  {
    hide End;
    EndAfterBase(ls[0]);
    if k == 0 {
      ChainGrows(ls[1..], End(ls[0]), end);
    } else {
      InChain(ls[1..], End(ls[0]), end, k - 1);
    }
  }

  /** Earlier functions end before later ones start. */
  lemma {:induction false} ChainOrdered(ls: seq<Layout>, start: nat, end: nat, i: nat, j: nat)
    requires Chained(ls, start, end) && i < j < |ls|
    ensures End(ls[i]) <= ls[j].base
    decreases |ls|
  {
    hide End;
    if i == 0 {
      InChain(ls[1..], End(ls[0]), end, j - 1);
    } else {
      ChainOrdered(ls[1..], End(ls[0]), end, i - 1, j - 1);
    }
  }

  /** The location written for the runtime: rounded up to a multiple of 8, always above the last ID. */
  function FinalLocation(id: nat): (loc: nat)
    ensures id < loc <= id + 8 && loc % 8 == 0
  {
    (id + 8) / 8 * 8
  }

  /** A use of the map: function, caller context and site. */
  ghost predicate Use(ls: seq<Layout>, i: nat, c: nat, s: nat) {
    i < |ls| && c < ls[i].contexts && s < |ls[i].sites|
  }

  /**
   Over a whole module, two uses have the same map index exactly when they are the same site of the
   same function, in the same context or at a site that leaves the context out. Every index lies
   strictly between 0 and the final location.
   */
  lemma IndicesInjective(ls: seq<Layout>, start: nat, end: nat, i: nat, c1: nat, s1: nat, j: nat, c2: nat, s2: nat)
    requires Chained(ls, start, end) && Use(ls, i, c1, s1) && Use(ls, j, c2, s2)
    requires Numbered(ls[i]) && Numbered(ls[j])
    ensures 0 < Index(ls[i], c1, s1) < FinalLocation(end)
    ensures Index(ls[i], c1, s1) == Index(ls[j], c2, s2)
       <==> i == j && s1 == s2 && (c1 == c2 || !ls[i].sites[s1].shifted)
  {
    hide Index, End, Chained;
    IndexInside(ls[i], c1, s1);
    IndexInside(ls[j], c2, s2);
    InChain(ls, start, end, i);
    if i < j {
      ChainOrdered(ls, start, end, i, j);
    } else if j < i {
      ChainOrdered(ls, start, end, j, i);
    } else {
      SameIndexIff(ls[i], c1, s1, c2, s2);
    }
  }

  /** The index as the instrumented code computes it, with 32-bit arithmetic throughout. */
  function Index32(l: Layout, context: nat, s: nat): nat
    requires s < |l.sites|
  {
    (l.sites[s].id % TWO32 + if l.sites[s].shifted then |l.sites| % TWO32 * (context % TWO32) % TWO32 else 0) % TWO32
  }

  lemma ProductParts(n: nat, c: nat)
    requires n > 0
    ensures c <= n * c && (c > 0 ==> n <= n * c)
  {
    if c > 0 {
      assert n * c == n * (c - 1) + n;
      assert (n - 1) * c >= 0;
    }
  }

  lemma Fits32(l: Layout, context: nat, s: nat)
    requires s < |l.sites| && Index(l, context, s) < TWO32
    ensures Index32(l, context, s) == Index(l, context, s)
  {
    if l.sites[s].shifted {
      var n, p := |l.sites|, |l.sites| * context;
      ProductParts(n, context);
      if context > 0 {
        assert n % TWO32 == n && context % TWO32 == context && p % TWO32 == p;
      } else {
        assert context % TWO32 == 0 && n % TWO32 * 0 == 0;
      }
    }
  }

  /** As long as the last ID of the module is below 2^32, no index wraps. */
  lemma NoIndexWraps(ls: seq<Layout>, start: nat, end: nat, i: nat, c: nat, s: nat)
    requires Chained(ls, start, end) && Use(ls, i, c, s) && Numbered(ls[i]) && end < TWO32
    ensures Index32(ls[i], c, s) == Index(ls[i], c, s)
  {
    hide Index, Index32, End, Chained;
    IndexInside(ls[i], c, s);
    InChain(ls, start, end, i);
    Fits32(ls[i], c, s);
  }

  // ---------- Collisions between contexts ----------

  /** The documented promise of the mode: different uses have different indices. */
  ghost predicate CollisionFree(ls: seq<Layout>) {
    forall i: nat, c1: nat, s1: nat, j: nat, c2: nat, s2: nat
      | Use(ls, i, c1, s1) && Use(ls, j, c2, s2) && Index(ls[i], c1, s1) == Index(ls[j], c2, s2) ::
      i == j && c1 == c2 && s1 == s2
  }

  /** A select on a vector of at least two elements. */
  predicate WideAt(f: Function, b: nat, pos: nat) {
    && b < |f.blocks| && pos < |f.blocks[b].instrs|
    && f.blocks[b].instrs[pos].VectorSelect? && f.blocks[b].instrs[pos].n >= 2
  }

  ghost predicate Wide(f: Function) {
    exists b: nat, pos: nat :: WideAt(f, b, pos)
  }

  /** The lane that is inserted last into the vector of IDs. */
  predicate LastLane(f: Function, o: Owner) {
    o.Arm? && WideAt(f, o.block, o.pos) && o.lane == f.blocks[o.block].instrs[o.pos].n - 1
  }

  /** Sites that leave the context out belong to wide vector selects. */
  lemma UnshiftedIsWide(f: Function, mode: bool, base: nat, s: nat)
    requires s < |LayoutOf(f, mode, base).sites| && LayoutOf(f, mode, base).contexts > 1
    requires !LayoutOf(f, mode, base).sites[s].shifted
    ensures mode && f.callers > 1 && Wide(f)
  {
    hide FunctionSites, InnerCount, BlockCount;
    var sites := FunctionSites(f, mode, base);
    var o := sites[s].owner;
    SitesInOrder(f, mode, base);
    assert LaterLane(o);
    assert Given(sites, o);
    GivenIff(f, mode, base, o);
    assert WideAt(f, o.block, o.pos);
  }

  /** In a function with several callers the last lane of a wide vector select is shared by all contexts. */
  lemma WideIsUnshifted(f: Function, base: nat) returns (s: nat)
    requires f.callers > 1 && Wide(f)
    ensures s < |LayoutOf(f, true, base).sites| && LayoutOf(f, true, base).contexts > 1
    ensures !LayoutOf(f, true, base).sites[s].shifted && LastLane(f, LayoutOf(f, true, base).sites[s].owner)
  {
    hide FunctionSites, InnerCount, BlockCount;
    var b: nat, pos: nat :| WideAt(f, b, pos);
    var sites := FunctionSites(f, true, base);
    var later, first := Arm(b, pos, f.blocks[b].instrs[pos].n - 1, false), Arm(b, pos, 0, false);
    GivenIff(f, true, base, later);
    GivenIff(f, true, base, first);
    s :| 0 <= s < |sites| && sites[s].owner == later;
    var t :| 0 <= t < |sites| && sites[t].owner == first;
    assert s != t && |sites| >= 2;
    SitesInOrder(f, true, base);
    SiteCount(f, true, base);
  }

  lemma SiteCount(f: Function, mode: bool, base: nat)
    requires WithEntries(f, mode)
    ensures |FunctionSites(f, mode, base)| == InnerCount(f.blocks) + BlockCount(f.blocks)
  {
    hide InnerSites, EntrySites;
  }

  /**
   "Collision free CALLER instrumentation" holds of a module exactly when it is not built for caller
   contexts, or no function with more than one caller selects on a vector of two or more elements.
   */
  lemma CollisionFreeIff(fs: seq<Function>, mode: bool, ls: seq<Layout>, start: nat, end: nat)
    requires Laid(fs, mode, ls, start, end)
    ensures CollisionFree(ls) <==> !mode || forall k | 0 <= k < |fs| :: fs[k].callers > 1 ==> !Wide(fs[k])
  {
    hide Index, End, LayoutOf, Chained, Wide, Numbered;
    if mode && exists k :: 0 <= k < |fs| && fs[k].callers > 1 && Wide(fs[k]) {
      var k: nat :| k < |fs| && fs[k].callers > 1 && Wide(fs[k]);
      var s := WideIsUnshifted(fs[k], ls[k].base);
      assert Use(ls, k, 0, s) && Use(ls, k, 1, s);
      LaidNumbered(fs, mode, ls, start, end, k);
      IndicesInjective(ls, start, end, k, 0, s, k, 1, s);
    } else {
      forall i: nat, c1: nat, s1: nat, j: nat, c2: nat, s2: nat
        | Use(ls, i, c1, s1) && Use(ls, j, c2, s2) && Index(ls[i], c1, s1) == Index(ls[j], c2, s2)
        ensures i == j && c1 == c2 && s1 == s2
      {
        LaidNumbered(fs, mode, ls, start, end, i);
        LaidNumbered(fs, mode, ls, start, end, j);
        IndicesInjective(ls, start, end, i, c1, s1, j, c2, s2);
        if c1 != c2 {
          UnshiftedIsWide(fs[i], mode, ls[i].base, s1);
        }
      }
    }
  }

  /** Two callers and one select on two elements: both contexts count into the same place. */
  lemma VectorCollision(base: nat)
    ensures
      var l := LayoutOf(Function([Block([VectorSelect(2)], true, false)], 2), true, base);
      && |l.sites| == 5 && l.contexts == 2 && l.sites[2].owner == Arm(0, 0, 1, false)
      && Index(l, 0, 2) == Index(l, 1, 2) == base + 3
      && Index(l, 0, 0) == base + 1 && Index(l, 1, 0) == base + 6
      && l.sites[4].owner == Entry(0) && Index(l, 0, 4) == base + 5 && Index(l, 1, 4) == base + 10
  {
    var f := Function([Block([VectorSelect(2)], true, false)], 2);
    assert f.blocks[..0] == [];
    assert InnerCount(f.blocks) == 4 && BlockCount(f.blocks) == 1;
    var lanes := LaneSites(0, 0, 2, true, base);
    assert lanes == LaneSites(0, 0, 1, true, base) +
      [Site(Arm(0, 0, 1, false), base + 3, false), Site(Arm(0, 0, 1, true), base + 4, false)];
    assert LaneSites(0, 0, 1, true, base) ==
      [Site(Arm(0, 0, 0, false), base + 1, true), Site(Arm(0, 0, 0, true), base + 2, true)];
    assert BlockSites(0, [VectorSelect(2)], true, base) == lanes;
    assert InnerSites(f.blocks, true, base) == lanes;
    assert FunctionSites(f, true, base) == lanes + EntrySites(f.blocks, true, base + 4);
  }
}
