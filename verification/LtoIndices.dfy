/**
 What the edge IDs of LtoContext identify: which calls, select arms and blocks get one, and when two
 map indices of a whole module are the same at run time.
 */
module LtoIndices {
  import opened LtoContext

  // ---------- IDs and context shifts in order ----------

  /** Only the later lanes of vector selects leave the caller context out. */
  predicate LaterLane(o: Owner) {
    o.Arm? && o.lane > 0
  }

  /** Consecutive IDs behind `id`, with the context added where `ctx` and the owner say so. */
  ghost predicate InOrder(s: seq<Site>, ctx: bool, id: nat) {
    forall k | 0 <= k < |s| :: s[k].id == id + 1 + k && (s[k].shifted <==> ctx && !LaterLane(s[k].owner))
  }

  lemma InOrderConcat(x: seq<Site>, y: seq<Site>, ctx: bool, id: nat)
    requires InOrder(x, ctx, id) && InOrder(y, ctx, id + |x|)
    ensures InOrder(x + y, ctx, id)
  {
    forall k | 0 <= k < |x + y|
      ensures (x + y)[k].id == id + 1 + k && ((x + y)[k].shifted <==> ctx && !LaterLane((x + y)[k].owner))
    {
      if k >= |x| {
        assert (x + y)[k] == y[k - |x|];
      }
    }
  }

  lemma {:induction false} LanesInOrder(b: nat, pos: nat, n: nat, ctx: bool, id: nat)
    ensures InOrder(LaneSites(b, pos, n, ctx, id), ctx, id)
  {
    if n > 0 {
      LanesInOrder(b, pos, n - 1, ctx, id);
    }
  }

  lemma {:induction false} BlockInOrder(b: nat, instrs: seq<Instr>, ctx: bool, id: nat)
    ensures InOrder(BlockSites(b, instrs, ctx, id), ctx, id)
  {
    hide LaneSites, InOrder;
    if instrs == [] {
      NothingInOrder(ctx, id);
    } else {
      var k := |instrs| - 1;
      var before := id + DryCount(instrs[..k]);
      BlockInOrder(b, instrs[..k], ctx, id);
      InstrInOrder(b, k, instrs[k], ctx, before);
      InOrderConcat(BlockSites(b, instrs[..k], ctx, id), InstrSites(b, k, instrs[k], ctx, before), ctx, id);
    }
  }

  lemma NothingInOrder(ctx: bool, id: nat)
    ensures InOrder([], ctx, id)
  {
  }

  lemma InstrInOrder(b: nat, pos: nat, i: Instr, ctx: bool, id: nat)
    ensures InOrder(InstrSites(b, pos, i, ctx, id), ctx, id)
  {
    if i.IntSelect? {
      LanesInOrder(b, pos, 1, ctx, id);
    } else if i.VectorSelect? {
      LanesInOrder(b, pos, i.n, ctx, id);
    }
  }

  lemma {:induction false} InnerInOrder(bs: seq<Block>, ctx: bool, id: nat)
    ensures InOrder(InnerSites(bs, ctx, id), ctx, id)
  {
    hide BlockSites, DryCount, InOrder;
    if bs == [] {
      NothingInOrder(ctx, id);
    } else {
      var k := |bs| - 1;
      var before := id + InnerCount(bs[..k]);
      InnerInOrder(bs[..k], ctx, id);
      BlockInOrder(k, bs[k].instrs, ctx, before);
      InOrderConcat(InnerSites(bs[..k], ctx, id), BlockSites(k, bs[k].instrs, ctx, before), ctx, id);
    }
  }

  lemma {:induction false} EntriesInOrder(bs: seq<Block>, ctx: bool, id: nat)
    ensures InOrder(EntrySites(bs, ctx, id), ctx, id)
  {
    if bs != [] {
      EntriesInOrder(bs[..|bs| - 1], ctx, id);
    }
  }

  /** The IDs of a function are the numbers behind its base, one after the other. */
  lemma SitesInOrder(f: Function, mode: bool, id: nat)
    ensures InOrder(FunctionSites(f, mode, id), PerCaller(f, mode), id)
  {
    hide InnerSites, EntrySites, InOrder;
    var ctx := PerCaller(f, mode);
    var inner := InnerSites(f.blocks, ctx, id);
    InnerInOrder(f.blocks, ctx, id);
    EntriesInOrder(f.blocks, ctx, id + InnerCount(f.blocks));
    if WithEntries(f, mode) {
      InOrderConcat(inner, EntrySites(f.blocks, ctx, id + InnerCount(f.blocks)), ctx, id);
    } else {
      assert FunctionSites(f, mode, id) == inner;
    }
  }

  // ---------- What gets an ID ----------

  ghost predicate Given(s: seq<Site>, o: Owner) {
    exists k :: 0 <= k < |s| && s[k].owner == o
  }

  lemma GivenConcat(x: seq<Site>, y: seq<Site>, o: Owner)
    ensures Given(x + y, o) <==> Given(x, o) || Given(y, o)
  {
    if Given(x + y, o) {
      var k :| 0 <= k < |x + y| && (x + y)[k].owner == o;
      assert if k < |x| then x[k].owner == o else y[k - |x|].owner == o;
    }
    if Given(x, o) {
      var k :| 0 <= k < |x| && x[k].owner == o;
      assert (x + y)[k].owner == o;
    }
    if Given(y, o) {
      var k :| 0 <= k < |y| && y[k].owner == o;
      assert (x + y)[|x| + k].owner == o;
    }
  }

  /** The owners at an instruction: a call, or both arms of each lane. */
  predicate OwnsAt(i: Instr, o: Owner) {
    match i
    case Interesting => o.Call?
    case IntSelect => o.Arm? && o.lane == 0
    case VectorSelect(n) => o.Arm? && o.lane < n
    case OddSelect => false
    case Plain => false
  }

  lemma {:induction false} LanesGiven(b: nat, pos: nat, n: nat, ctx: bool, id: nat, o: Owner)
    ensures Given(LaneSites(b, pos, n, ctx, id), o) <==> o.Arm? && o.block == b && o.pos == pos && o.lane < n
  {
    if n > 0 {
      var last := [Site(Arm(b, pos, n - 1, false), id + 2 * n - 1, ctx && n == 1),
                   Site(Arm(b, pos, n - 1, true), id + 2 * n, ctx && n == 1)];
      LanesGiven(b, pos, n - 1, ctx, id, o);
      GivenConcat(LaneSites(b, pos, n - 1, ctx, id), last, o);
      if o.Arm? && o.block == b && o.pos == pos && o.lane == n - 1 {
        assert last[if o.second then 1 else 0].owner == o;
      }
    }
  }

  lemma InstrGiven(b: nat, pos: nat, i: Instr, ctx: bool, id: nat, o: Owner)
    ensures Given(InstrSites(b, pos, i, ctx, id), o) <==> !o.Entry? && o.block == b && o.pos == pos && OwnsAt(i, o)
  {
    hide LaneSites;
    if i.IntSelect? {
      LanesGiven(b, pos, 1, ctx, id, o);
    } else if i.VectorSelect? {
      LanesGiven(b, pos, i.n, ctx, id, o);
    } else if i.Interesting? && o == Call(b, pos) {
      assert InstrSites(b, pos, i, ctx, id)[0].owner == o;
    }
  }

  lemma {:induction false} BlockGiven(b: nat, instrs: seq<Instr>, ctx: bool, id: nat, o: Owner)
    ensures Given(BlockSites(b, instrs, ctx, id), o)
       <==> !o.Entry? && o.block == b && o.pos < |instrs| && OwnsAt(instrs[o.pos], o)
  {
    hide InstrSites, DryCount, OwnsAt;
    if instrs != [] {
      var k := |instrs| - 1;
      var before := id + DryCount(instrs[..k]);
      BlockGiven(b, instrs[..k], ctx, id, o);
      InstrGiven(b, k, instrs[k], ctx, before, o);
      GivenConcat(BlockSites(b, instrs[..k], ctx, id), InstrSites(b, k, instrs[k], ctx, before), o);
    }
  }

  /** The calls and select arms of the blocks. */
  predicate OwnsInside(bs: seq<Block>, o: Owner) {
    && !o.Entry? && o.block < |bs| && o.pos < |bs[o.block].instrs|
    && OwnsAt(bs[o.block].instrs[o.pos], o)
  }

  lemma {:induction false} InnerGiven(bs: seq<Block>, ctx: bool, id: nat, o: Owner)
    ensures Given(InnerSites(bs, ctx, id), o) <==> OwnsInside(bs, o)
  {
    hide BlockSites, DryCount, OwnsAt;
    if bs != [] {
      var k := |bs| - 1;
      var before := id + InnerCount(bs[..k]);
      InnerGiven(bs[..k], ctx, id, o);
      BlockGiven(k, bs[k].instrs, ctx, before, o);
      GivenConcat(InnerSites(bs[..k], ctx, id), BlockSites(k, bs[k].instrs, ctx, before), o);
    }
  }

  lemma {:induction false} EntriesGiven(bs: seq<Block>, ctx: bool, id: nat, o: Owner)
    ensures Given(EntrySites(bs, ctx, id), o) <==> o.Entry? && o.block < |bs| && Chosen(bs[o.block])
  {
    if bs != [] {
      var k := |bs| - 1;
      EntriesGiven(bs[..k], ctx, id, o);
      var last := if Chosen(bs[k]) then [Site(Entry(k), id + BlockCount(bs[..k]) + 1, ctx)] else [];
      GivenConcat(EntrySites(bs[..k], ctx, id), last, o);
      if o == Entry(k) && Chosen(bs[k]) {
        assert last[0].owner == o;
      }
    }
  }

  /** All that gets an ID in a function, and nothing else does. */
  predicate Owns(f: Function, mode: bool, o: Owner) {
    if o.Entry? then o.block < |f.blocks| && Chosen(f.blocks[o.block]) && WithEntries(f, mode)
    else OwnsInside(f.blocks, o)
  }

  lemma GivenIff(f: Function, mode: bool, id: nat, o: Owner)
    ensures Given(FunctionSites(f, mode, id), o) <==> Owns(f, mode, o)
  {
    hide InnerSites, EntrySites, OwnsInside, InnerCount;
    var ctx := PerCaller(f, mode);
    var inner, entries := InnerSites(f.blocks, ctx, id), EntrySites(f.blocks, ctx, id + InnerCount(f.blocks));
    InnerGiven(f.blocks, ctx, id, o);
    EntriesGiven(f.blocks, ctx, id + InnerCount(f.blocks), o);
    GivenConcat(inner, if WithEntries(f, mode) then entries else [], o);
    NothingInside(f.blocks, o);
  }

  lemma NothingInside(bs: seq<Block>, o: Owner)
    ensures OwnsInside(bs, o) ==> !o.Entry?
  {
  }

  // ---------- Each of them once ----------

  ghost predicate Distinct(s: seq<Site>) {
    forall j, k | 0 <= j < k < |s| :: s[j].owner != s[k].owner
  }

  lemma DistinctConcat(x: seq<Site>, y: seq<Site>)
    requires Distinct(x) && Distinct(y) && forall o | Given(x, o) :: !Given(y, o)
    ensures Distinct(x + y)
  {
    forall j, k | 0 <= j < k < |x + y|
      ensures (x + y)[j].owner != (x + y)[k].owner
    {
      if j < |x| <= k {
        assert Given(x, x[j].owner) && (x + y)[k] == y[k - |x|];
        assert Given(y, y[k - |x|].owner);
      } else if j >= |x| {
        assert (x + y)[j] == y[j - |x|] && (x + y)[k] == y[k - |x|];
      }
    }
  }

  lemma {:induction false} LanesDistinct(b: nat, pos: nat, n: nat, ctx: bool, id: nat)
    ensures Distinct(LaneSites(b, pos, n, ctx, id))
  {
    if n > 0 {
      var s := LaneSites(b, pos, n - 1, ctx, id);
      LanesDistinct(b, pos, n - 1, ctx, id);
      forall k | 0 <= k < |s|
        ensures s[k].owner.Arm? && s[k].owner.lane < n - 1
      {
        LanesGiven(b, pos, n - 1, ctx, id, s[k].owner);
        assert Given(s, s[k].owner);
      }
    }
  }

  lemma InstrDistinct(b: nat, pos: nat, i: Instr, ctx: bool, id: nat)
    ensures Distinct(InstrSites(b, pos, i, ctx, id))
  {
    if i.IntSelect? {
      LanesDistinct(b, pos, 1, ctx, id);
    } else if i.VectorSelect? {
      LanesDistinct(b, pos, i.n, ctx, id);
    }
  }

  lemma {:induction false} BlockDistinct(b: nat, instrs: seq<Instr>, ctx: bool, id: nat)
    ensures Distinct(BlockSites(b, instrs, ctx, id))
  {
    hide InstrSites, DryCount, Distinct, Given, OwnsAt;
    if instrs == [] {
      NothingDistinct();
    } else {
      var k := |instrs| - 1;
      var before := id + DryCount(instrs[..k]);
      var x, y := BlockSites(b, instrs[..k], ctx, id), InstrSites(b, k, instrs[k], ctx, before);
      BlockDistinct(b, instrs[..k], ctx, id);
      InstrDistinct(b, k, instrs[k], ctx, before);
      forall o | Given(x, o)
        ensures !Given(y, o)
      {
        BlockGiven(b, instrs[..k], ctx, id, o);
        InstrGiven(b, k, instrs[k], ctx, before, o);
      }
      DistinctConcat(x, y);
    }
  }

  lemma NothingDistinct()
    ensures Distinct([])
  {
  }

  lemma {:induction false} InnerDistinct(bs: seq<Block>, ctx: bool, id: nat)
    ensures Distinct(InnerSites(bs, ctx, id))
  {
    hide BlockSites, DryCount, Distinct, Given, OwnsAt;
    if bs == [] {
      NothingDistinct();
    } else {
      var k := |bs| - 1;
      var before := id + InnerCount(bs[..k]);
      var x, y := InnerSites(bs[..k], ctx, id), BlockSites(k, bs[k].instrs, ctx, before);
      InnerDistinct(bs[..k], ctx, id);
      BlockDistinct(k, bs[k].instrs, ctx, before);
      forall o | Given(x, o)
        ensures !Given(y, o)
      {
        InnerGiven(bs[..k], ctx, id, o);
        BlockGiven(k, bs[k].instrs, ctx, before, o);
      }
      DistinctConcat(x, y);
    }
  }

  lemma {:induction false} EntriesDistinct(bs: seq<Block>, ctx: bool, id: nat)
    ensures Distinct(EntrySites(bs, ctx, id))
  {
    if bs != [] {
      var k := |bs| - 1;
      var s := EntrySites(bs[..k], ctx, id);
      EntriesDistinct(bs[..k], ctx, id);
      forall j | 0 <= j < |s|
        ensures s[j].owner != Entry(k)
      {
        EntriesGiven(bs[..k], ctx, id, s[j].owner);
        assert Given(s, s[j].owner);
      }
    }
  }

  /** No call, arm or block gets two IDs. */
  lemma OwnersDistinct(f: Function, mode: bool, id: nat)
    ensures Distinct(FunctionSites(f, mode, id))
  {
    hide InnerSites, EntrySites, Distinct, Given, OwnsInside, InnerCount;
    var ctx := PerCaller(f, mode);
    var x, y := InnerSites(f.blocks, ctx, id), EntrySites(f.blocks, ctx, id + InnerCount(f.blocks));
    InnerDistinct(f.blocks, ctx, id);
    EntriesDistinct(f.blocks, ctx, id + InnerCount(f.blocks));
    forall o | Given(x, o)
      ensures !Given(y, o)
    {
      InnerGiven(f.blocks, ctx, id, o);
      EntriesGiven(f.blocks, ctx, id + InnerCount(f.blocks), o);
      NothingInside(f.blocks, o);
    }
    DistinctConcat(x, y);
    assert x + [] == x;
  }

  // ---------- Blocks that get no ID ----------

  /** Every block that was chosen for instrumentation has an ID. */
  ghost predicate BlocksCovered(f: Function, mode: bool, id: nat) {
    forall b | 0 <= b < |f.blocks| && Chosen(f.blocks[b]) :: Given(FunctionSites(f, mode, id), Entry(b))
  }

  lemma {:induction false} NoneChosen(bs: seq<Block>)
    ensures BlockCount(bs) == 0 <==> forall b | 0 <= b < |bs| :: !Chosen(bs[b])
  {
    if bs != [] {
      NoneChosen(bs[..|bs| - 1]);
    }
  }

  /** In context mode the blocks of a function with at most one caller are lost, if it has any to lose. */
  lemma BlocksCoveredIff(f: Function, mode: bool, id: nat)
    ensures BlocksCovered(f, mode, id) <==> !mode || f.callers > 1 || BlockCount(f.blocks) == 0
  {
    hide FunctionSites, BlockCount;
    forall b | 0 <= b < |f.blocks| && Chosen(f.blocks[b])
      ensures Given(FunctionSites(f, mode, id), Entry(b)) <==> WithEntries(f, mode)
    {
      GivenIff(f, mode, id, Entry(b));
    }
    NoneChosen(f.blocks);
    if BlockCount(f.blocks) != 0 {
      var b :| 0 <= b < |f.blocks| && Chosen(f.blocks[b]);
      assert BlocksCovered(f, mode, id) ==> Given(FunctionSites(f, mode, id), Entry(b));
    }
  }

  /** A function with one caller and one chosen block: nothing of it is covered in context mode. */
  lemma LostBlock(id: nat)
    ensures !BlocksCovered(Function([Block([Plain], true, false)], 1), true, id)
    ensures FunctionSites(Function([Block([Plain], true, false)], 1), true, id) == []
    ensures |FunctionSites(Function([Block([Plain], true, false)], 1), false, id)| == 1
  {
    var f := Function([Block([Plain], true, false)], 1);
    assert BlockSites(0, [Plain], false, id) == [];
    assert f.blocks[..0] == [];
    assert BlockCount(f.blocks) == 1 && InnerCount(f.blocks) == 0;
    BlocksCoveredIff(f, true, id);
  }
}
