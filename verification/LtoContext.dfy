/**
 Edge IDs of the LTO instrumentation in caller-context mode: a dry run counts what the real pass will
 allocate, although the real pass inserts selects into the very list that it walks. Every ID is
 recorded with what it was given to and with whether the caller context is added to it at run time.
 */
module LtoContext {

  /** LLVM's fixed vectors have at least one element. */
  type Lanes = n: nat | n >= 1 witness 1

  /** What the pass distinguishes. */
  datatype Instr =
    | Interesting              // a C call of __afl_coverage_interesting
    | IntSelect                // a select on an integer condition
    | VectorSelect(n: Lanes)   // a select on a fixed vector
    | OddSelect                // any other select; counted as unhandled
    | Plain

  predicate IsSelect(i: Instr) {
    i.IntSelect? || i.VectorSelect? || i.OddSelect?
  }

  /** The IDs that an instruction takes. */
  function Ids(i: Instr): nat {
    match i
    case Interesting => 1
    case IntSelect => 2
    case VectorSelect(n) => 2 * n
    case OddSelect => 0
    case Plain => 0
  }

  /** What an ID is given to: a call, one arm of one lane of a select, or a block. */
  datatype Owner =
    | Call(block: nat, pos: nat)
    | Arm(block: nat, pos: nat, lane: nat, second: bool)
    | Entry(block: nat)

  /** An allocated ID; `shifted` when CTX_add is added to it. */
  datatype Site = Site(owner: Owner, id: nat, shifted: bool)

  // ---------- One block ----------

  /** The dry run over a block. */
  function DryCount(b: seq<Instr>): nat {
    if b == [] then 0 else DryCount(b[..|b| - 1]) + Ids(b[|b| - 1])
  }

  /** The first `n` lanes of a vector select; only the first lane is shifted. */
  function LaneSites(b: nat, pos: nat, n: nat, ctx: bool, id: nat): (s: seq<Site>)
    ensures |s| == 2 * n
  {
    if n == 0 then []
    else LaneSites(b, pos, n - 1, ctx, id) +
         [Site(Arm(b, pos, n - 1, false), id + 2 * n - 1, ctx && n == 1),
          Site(Arm(b, pos, n - 1, true), id + 2 * n, ctx && n == 1)]
  }

  function InstrSites(b: nat, pos: nat, i: Instr, ctx: bool, id: nat): (s: seq<Site>)
    ensures |s| == Ids(i)
  {
    match i
    case Interesting => [Site(Call(b, pos), id + 1, ctx)]
    case IntSelect => LaneSites(b, pos, 1, ctx, id)
    case VectorSelect(n) => LaneSites(b, pos, n, ctx, id)
    case OddSelect => []
    case Plain => []
  }

  /** The IDs of the instructions of block `b`, in order, when `id` was the last one given before. */
  function BlockSites(b: nat, instrs: seq<Instr>, ctx: bool, id: nat): (s: seq<Site>)
    ensures |s| == DryCount(instrs)
  {
    if instrs == [] then []
    else
      var k := |instrs| - 1;
      BlockSites(b, instrs[..k], ctx, id) + InstrSites(b, k, instrs[k], ctx, id + DryCount(instrs[..k]))
  }

  lemma BlockSitesSnoc(b: nat, instrs: seq<Instr>, k: nat, ctx: bool, id: nat)
    requires k < |instrs|
    ensures DryCount(instrs[..k + 1]) == DryCount(instrs[..k]) + Ids(instrs[k])
    ensures BlockSites(b, instrs[..k + 1], ctx, id)
         == BlockSites(b, instrs[..k], ctx, id) + InstrSites(b, k, instrs[k], ctx, id + DryCount(instrs[..k]))
  {
    assert instrs[..k + 1][..k] == instrs[..k];
  }

  /** The rest of the code inserted behind a select; the inserted select is still ahead when `skip`. */
  ghost predicate InsertedAhead(ins: seq<Instr>, skip: bool) {
    if skip then exists at :: Inserted(ins, at) else forall k | 0 <= k < |ins| :: ins[k].Plain?
  }

  /** Exactly one of the inserted instructions is a select. */
  ghost predicate Inserted(ins: seq<Instr>, at: nat) {
    && at < |ins| && IsSelect(ins[at])
    && forall k | 0 <= k < |ins| && k != at :: ins[k].Plain?
  }

  /** The walk meets nothing to count in inserted code, and `skip_next` is cleared at its one select. */
  lemma InsertedSkipped(ins: seq<Instr>, skip: bool)
    requires InsertedAhead(ins, skip)
    ensures ins == [] ==> !skip
    ensures ins != [] ==> ins[0].Plain? || (IsSelect(ins[0]) && skip)
    ensures ins != [] ==> InsertedAhead(ins[1..], skip && !IsSelect(ins[0]))
  {
    if skip {
      var at: nat :| Inserted(ins, at);
      if at > 0 {
        assert Inserted(ins[1..], at - 1);
      }
    }
  }

  /** The code built behind a handled select: context add, the new select, the counter update. */
  function Build(sel: Instr, ctx: bool, update: nat): (ins: seq<Instr>)
    requires Handled(sel)
    ensures InsertedAhead(ins, true)
  {
    var pre := (if ctx then 3 else 0) + if sel.IntSelect? then 0 else 2 * sel.n;
    var ins := seq(pre, _ => Plain) + [sel] + seq(update, _ => Plain);
    assert Inserted(ins, pre);
    ins
  }

  predicate Handled(i: Instr) {
    i.IntSelect? || i.VectorSelect?
  }

  /** The block with the code for each handled select right behind it. */
  function Woven(b: seq<Instr>, ctx: bool, update: nat): seq<Instr> {
    if b == [] then []
    else
      var last := b[|b| - 1];
      Woven(b[..|b| - 1], ctx, update) + [last] + if Handled(last) then Build(last, ctx, update) else []
  }

  lemma NothingWoven(b: seq<Instr>, ctx: bool, update: nat)
    ensures Woven(b[..0], ctx, update) + b[0..] == b
  {
  }

  /** At an original instruction: weaving one more is inserting behind the walk. */
  lemma WovenStep(b: seq<Instr>, pos: nat, ctx: bool, update: nat, block: seq<Instr>, i: nat)
    requires pos < |b| && i < |block| && block == Woven(b[..pos], ctx, update) + b[pos..]
    requires |block| - i == |b| - pos
    ensures Woven(b[..pos + 1], ctx, update) + b[pos + 1..]
         == if Handled(b[pos]) then block[..i + 1] + Build(b[pos], ctx, update) + block[i + 1..] else block
  {
    hide Build, Woven;
    var done := Woven(b[..pos], ctx, update);
    WovenSnoc(b, pos, ctx, update);
    var built := if Handled(b[pos]) then Build(b[pos], ctx, update) else [];
    assert b[pos..] == [b[pos]] + b[pos + 1..];
    SpliceBehind(done, b[pos], b[pos + 1..], built, block, i);
    assert block[..i + 1] + [] + block[i + 1..] == block;
  }

  lemma WovenSnoc(b: seq<Instr>, pos: nat, ctx: bool, update: nat)
    requires pos < |b|
    ensures Woven(b[..pos + 1], ctx, update)
         == Woven(b[..pos], ctx, update) + [b[pos]] + if Handled(b[pos]) then Build(b[pos], ctx, update) else []
  {
    hide Build;
    assert b[..pos + 1][..pos] == b[..pos];
  }

  lemma SpliceBehind(done: seq<Instr>, x: Instr, tail: seq<Instr>, built: seq<Instr>, block: seq<Instr>, i: nat)
    requires block == done + ([x] + tail) && |block| - i == 1 + |tail| && i >= 0
    ensures block[..i + 1] + built + block[i + 1..] == done + [x] + built + tail
  {
    assert block[..i + 1] == done + [x] && block[i + 1..] == tail;
  }

  /** The two IDs of the first lane, then the loop over the other lanes, which leaves out the context. */
  method AllocateLanes(b: nat, pos: nat, n: Lanes, ctx: bool, id0: nat) returns (sites: seq<Site>, id: nat)
    ensures id == id0 + 2 * n && sites == LaneSites(b, pos, n, ctx, id0)
  {
    id := id0 + 2;
    sites := [Site(Arm(b, pos, 0, false), id0 + 1, ctx), Site(Arm(b, pos, 0, true), id0 + 2, ctx)];
    assert LaneSites(b, pos, 0, ctx, id0) == [];
    for i := 1 to n
      invariant id == id0 + 2 * i && sites == LaneSites(b, pos, i, ctx, id0)
    {
      sites := sites + [Site(Arm(b, pos, i, false), id + 1, false), Site(Arm(b, pos, i, true), id + 2, false)];
      id := id + 2;
    }
  }

  /** What the walk does with an instruction that was there before. */
  method Allocate(b: nat, pos: nat, instr: Instr, ctx: bool, id0: nat) returns (sites: seq<Site>, id: nat)
    ensures id == id0 + Ids(instr) && sites == InstrSites(b, pos, instr, ctx, id0)
  {
    sites, id := [], id0;
    if instr.Interesting? {
      sites, id := [Site(Call(b, pos), id0 + 1, ctx)], id0 + 1;
    } else if instr.IntSelect? {
      sites, id := AllocateLanes(b, pos, 1, ctx, id0);
    } else if instr.VectorSelect? {
      sites, id := AllocateLanes(b, pos, instr.n, ctx, id0);
    }
  }

  /**
   The real pass over a block: it gives IDs to the original instructions alone, in order, and as many
   as the dry run counted. `pos` and `left` only record where the walk is: `left` inserted
   instructions ahead, then the original ones from `pos` on.
   */
  method RealPass(b: nat, block0: seq<Instr>, ctx: bool, update: nat, id0: nat)
    returns (block: seq<Instr>, sites: seq<Site>, id: nat)
    ensures id == id0 + DryCount(block0) && sites == BlockSites(b, block0, ctx, id0)
    ensures block == Woven(block0, ctx, update)
  {
    hide InstrSites, BlockSites, DryCount, InsertedAhead, Woven;
    block, sites, id := block0, [], id0;
    var i, skip, pos, left := 0, false, 0, 0;
    ghost var ins: seq<Instr> := [];
    NoSites(b, block0, ctx, id0);
    assert block[i..] == ins + block0[pos..];
    NothingWoven(block0, ctx, update);
    while i < |block|
      invariant 0 <= i <= |block| && pos <= |block0|
      invariant block == Woven(block0[..pos], ctx, update) + block0[pos..]
      invariant |ins| == left && block[i..] == ins + block0[pos..] && InsertedAhead(ins, skip)
      invariant id == id0 + DryCount(block0[..pos]) && sites == BlockSites(b, block0[..pos], ctx, id0)
      decreases |block0| - pos, left
    {
      var instr := block[i];
      InsertedSkipped(ins, skip);
      Advance(block, i, ins, block0, pos);
      if left == 0 {
        assert |block[i..]| == |block0[pos..]|;
        BlockSitesSnoc(b, block0, pos, ctx, id0);
        WovenStep(block0, pos, ctx, update, block, i);
      }
      var given, built: seq<Instr> := [], [];
      if IsSelect(instr) && skip {
        skip := false;
      } else {
        given, id := Allocate(b, pos, instr, ctx, id);
        if Handled(instr) {
          built := Build(instr, ctx, update);
          InsertBehind(block, i, built);
          block := block[..i + 1] + built + block[i + 1..];
          skip := true;
        }
      }
      sites := sites + given;
      if left > 0 {
        PlainGivesNothing(b, pos, instr, ctx, id);
        left, ins := left - 1, ins[1..];
      } else {
        pos, left, ins := pos + 1, |built|, built;
      }
      i := i + 1;
    }
    assert block[i..] == [] && pos == |block0|;
    assert block0[..pos] == block0 && block0[pos..] == [];
  }

  lemma NoSites(b: nat, instrs: seq<Instr>, ctx: bool, id: nat)
    ensures DryCount(instrs[..0]) == 0 && BlockSites(b, instrs[..0], ctx, id) == []
    ensures InsertedAhead([], false)
  {
  }

  lemma PlainGivesNothing(b: nat, pos: nat, instr: Instr, ctx: bool, id: nat)
    ensures instr.Plain? ==> InstrSites(b, pos, instr, ctx, id) == []
  {
  }

  /** The head of what is ahead: inserted code first, then the original instructions from `pos` on. */
  lemma Advance(block: seq<Instr>, i: nat, ins: seq<Instr>, block0: seq<Instr>, pos: nat)
    requires i < |block| && pos <= |block0| && block[i..] == ins + block0[pos..]
    ensures ins != [] ==> block[i] == ins[0] && block[i + 1..] == ins[1..] + block0[pos..]
    ensures ins == [] ==> pos < |block0| && block[i] == block0[pos] && block[i + 1..] == block0[pos + 1..]
  {
    assert block[i] == block[i..][0] && block[i..][1..] == block[i + 1..];
  }

  lemma InsertBehind(block: seq<Instr>, i: nat, built: seq<Instr>)
    requires i < |block|
    ensures (block[..i + 1] + built + block[i + 1..])[i + 1..] == built + block[i + 1..]
  {
  }

  // ---------- One function ----------

  /** shouldInstrumentBlock and the list of blocks with or after __afl_loop. */
  datatype Block = Block(instrs: seq<Instr>, instrument: bool, listed: bool)

  datatype Function = Function(blocks: seq<Block>, callers: nat)

  predicate Chosen(b: Block) {
    b.instrument && !b.listed
  }

  /** The IDs inside the blocks and those of the blocks themselves. */
  function InnerCount(bs: seq<Block>): nat {
    if bs == [] then 0 else InnerCount(bs[..|bs| - 1]) + DryCount(bs[|bs| - 1].instrs)
  }

  function BlockCount(bs: seq<Block>): nat {
    if bs == [] then 0 else BlockCount(bs[..|bs| - 1]) + if Chosen(bs[|bs| - 1]) then 1 else 0
  }

  function InnerSites(bs: seq<Block>, ctx: bool, id: nat): (s: seq<Site>)
    ensures |s| == InnerCount(bs)
  {
    if bs == [] then []
    else
      var k := |bs| - 1;
      InnerSites(bs[..k], ctx, id) + BlockSites(k, bs[k].instrs, ctx, id + InnerCount(bs[..k]))
  }

  lemma InnerSitesSnoc(bs: seq<Block>, k: nat, ctx: bool, id: nat)
    requires k < |bs|
    ensures InnerCount(bs[..k + 1]) == InnerCount(bs[..k]) + DryCount(bs[k].instrs)
    ensures InnerSites(bs[..k + 1], ctx, id)
         == InnerSites(bs[..k], ctx, id) + BlockSites(k, bs[k].instrs, ctx, id + InnerCount(bs[..k]))
  {
    hide BlockSites, DryCount;
    assert bs[..k + 1][..k] == bs[..k];
  }

  lemma NoInnerSites(bs: seq<Block>, ctx: bool, id: nat)
    ensures InnerCount(bs[..0]) == 0 && InnerSites(bs[..0], ctx, id) == []
  {
  }

  function EntrySites(bs: seq<Block>, ctx: bool, id: nat): (s: seq<Site>)
    ensures |s| == BlockCount(bs)
  {
    if bs == [] then []
    else
      var k := |bs| - 1;
      EntrySites(bs[..k], ctx, id) +
      if Chosen(bs[k]) then [Site(Entry(k), id + BlockCount(bs[..k]) + 1, ctx)] else []
  }

  /** Whether the blocks themselves get IDs: in context mode only those of functions with several callers. */
  predicate WithEntries(f: Function, mode: bool) {
    !mode || f.callers > 1
  }

  /** Whether the function is instrumented once per caller: it needs more than one ID. */
  predicate PerCaller(f: Function, mode: bool) {
    mode && f.callers > 1 && InnerCount(f.blocks) + BlockCount(f.blocks) > 1
  }

  function FunctionSites(f: Function, mode: bool, id: nat): seq<Site> {
    var ctx := PerCaller(f, mode);
    InnerSites(f.blocks, ctx, id) +
    if WithEntries(f, mode) then EntrySites(f.blocks, ctx, id + InnerCount(f.blocks)) else []
  }

  /** Where the IDs of a function lie: behind `base`, once for each context. */
  datatype Layout = Layout(base: nat, sites: seq<Site>, contexts: nat)

  function LayoutOf(f: Function, mode: bool, base: nat): Layout {
    Layout(base, FunctionSites(f, mode, base), if PerCaller(f, mode) then f.callers else 1)
  }

  /** The map index that a site uses at run time in a context. */
  function Index(l: Layout, context: nat, s: nat): nat
    requires s < |l.sites|
  {
    l.sites[s].id + if l.sites[s].shifted then |l.sites| * context else 0
  }

  function End(l: Layout): nat {
    l.base + |l.sites| * l.contexts
  }

  /** The module pass: afl_global_id. */
  class Pass {
    var globalId: nat
    const ctxMode: bool

    constructor (start: nat, mode: bool)
      ensures globalId == (if start < 4 then 4 else start) && ctxMode == mode
    {
      globalId := if start < 4 then 4 else start;
      ctxMode := mode;
    }

    /** The dry run: instructions of all blocks, then Fake_InjectCoverage over the chosen blocks. */
    method DryRun(f: Function) returns (inst: nat)
      ensures inst == InnerCount(f.blocks) + BlockCount(f.blocks)
    {
      inst := 0;
      for i := 0 to |f.blocks|
        invariant inst == InnerCount(f.blocks[..i])
      {
        assert f.blocks[..i + 1][..i] == f.blocks[..i];
        var block := f.blocks[i].instrs;
        for k := 0 to |block|
          invariant inst == InnerCount(f.blocks[..i]) + DryCount(block[..k])
        {
          assert block[..k + 1][..k] == block[..k];
          inst := inst + Ids(block[k]);
        }
        assert block[..|block|] == block;
      }
      assert f.blocks[..|f.blocks|] == f.blocks;
      for i := 0 to |f.blocks|
        invariant inst == InnerCount(f.blocks) + BlockCount(f.blocks[..i])
      {
        assert f.blocks[..i + 1][..i] == f.blocks[..i];
        if f.blocks[i].instrument {
          if !f.blocks[i].listed { inst := inst + 1; }
        }
      }
    }

    /** The walk over all blocks. */
    method Walk(f: Function, ctx: bool, update: nat, id0: nat) returns (sites: seq<Site>, id: nat)
      ensures id == id0 + InnerCount(f.blocks) && sites == InnerSites(f.blocks, ctx, id0)
    {
      hide InnerSites, InnerCount, BlockSites, DryCount, Woven;
      sites, id := [], id0;
      NoInnerSites(f.blocks, ctx, id0);
      for i := 0 to |f.blocks|
        invariant id == id0 + InnerCount(f.blocks[..i]) && sites == InnerSites(f.blocks[..i], ctx, id0)
      {
        InnerSitesSnoc(f.blocks, i, ctx, id0);
        var b, given;
        b, given, id := RealPass(i, f.blocks[i].instrs, ctx, update, id);
        sites := sites + given;
      }
      assert f.blocks[..|f.blocks|] == f.blocks;
    }

    /** InjectCoverage over the chosen blocks. */
    method Inject(f: Function, ctx: bool, id0: nat) returns (sites: seq<Site>, id: nat)
      ensures id == id0 + BlockCount(f.blocks) && sites == EntrySites(f.blocks, ctx, id0)
    {
      sites, id := [], id0;
      for i := 0 to |f.blocks|
        invariant id == id0 + BlockCount(f.blocks[..i]) && sites == EntrySites(f.blocks[..i], ctx, id0)
      {
        assert f.blocks[..i + 1][..i] == f.blocks[..i];
        if f.blocks[i].instrument && !f.blocks[i].listed {
          id := id + 1;
          sites := sites + [Site(Entry(i), id, ctx)];
        }
      }
      assert f.blocks[..|f.blocks|] == f.blocks;
    }

    /**
     instrumentFunction. With a context, the number of IDs allocated is the dry-run count, so the
     consistency check at the end of the function never fires; the block of IDs is then repeated once
     per caller. In context mode, a function with at most one caller gets no block IDs.
     */
    method InstrumentFunction(f: Function, update: nat) returns (l: Layout, bug: bool)
      modifies this
      ensures !bug
      ensures l == LayoutOf(f, ctxMode, old(globalId)) && globalId == End(l)
    {
      hide InnerSites, EntrySites, InnerCount, BlockCount;
      var save, instHere := globalId, 0;
      bug := false;
      if ctxMode && f.callers > 1 {
        var inst := DryRun(f);
        if inst > 1 { instHere := inst; }
      }
      var sites, entries;
      sites, globalId := Walk(f, instHere > 0, update, globalId);
      if !ctxMode || f.callers > 1 {
        entries, globalId := Inject(f, instHere > 0, globalId);
        sites := sites + entries;
      }
      l := Layout(save, sites, 1);
      if instHere > 0 && f.callers > 1 {
        if instHere != globalId - save { bug := true; }
        OneMore(instHere, f.callers);
        globalId := globalId + instHere * (f.callers - 1);
        l := Layout(save, sites, f.callers);
      }
    }
  }

  lemma OneMore(n: nat, k: nat)
    requires k >= 1
    ensures n + n * (k - 1) == n * k
  {
  }
}
