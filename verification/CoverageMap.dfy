/** The loops over the coverage map, for any word type that stands for its bytes. */
module CoverageMap {
  import opened CoverageBytes

  /** What the loops do with one word. */
  datatype WordOps<!W> = WordOps(
    split: W -> seq<bv8>,
    isZero: W -> bool,
    meets: (W, W) -> bool,
    discover: (nat, W, W) -> (nat, W),
    classify: W -> W,
    simplify: W -> W)

  /** Reading, testing and mapping a word is reading, testing and mapping its bytes. */
  ghost predicate SoundMaps<W(!new)>(ops: WordOps<W>, width: nat, classOf: bv8 -> bv8, simple: bv8 -> bv8) {
    && (forall w :: |ops.split(w)| == width)
    && (forall w :: ops.isZero(w) <==> forall i | 0 <= i < width :: ops.split(w)[i] == 0)
    && (forall w :: ops.split(ops.classify(w)) == MapBytes(classOf, ops.split(w)))
    && (forall w :: ops.split(ops.simplify(w)) == MapBytes(simple, ops.split(w)))
    && classOf(0) == 0
  }

  /** Two words meet when their bytes do. */
  ghost predicate SoundMeets<W(!new)>(ops: WordOps<W>) {
    forall c, v :: |ops.split(c)| == |ops.split(v)|
                   && (ops.meets(c, v) <==> NoveltyOf(ops.split(c), ops.split(v)) > 0)
  }

  /** Discovering a word raises the result to the bytes' novelty and clears the bytes. */
  ghost predicate SoundDiscover<W(!new)>(ops: WordOps<W>) {
    forall ret: nat, c, v | ret <= 2 ::
      && |ops.split(c)| == |ops.split(v)|
      && ops.discover(ret, c, v).0 == Max(ret, NoveltyOf(ops.split(c), ops.split(v)))
      && ops.split(ops.discover(ret, c, v).1) == Clear(ops.split(c), ops.split(v))
  }

  /** The word operations stand for the bytewise ones. */
  ghost predicate Sound<W(!new)>(ops: WordOps<W>, width: nat, classOf: bv8 -> bv8, simple: bv8 -> bv8) {
    SoundMaps(ops, width, classOf, simple) && SoundMeets(ops) && SoundDiscover(ops)
  }

  lemma MeetsIs<W(!new)>(ops: WordOps<W>, width: nat, classOf: bv8 -> bv8, simple: bv8 -> bv8, c: W, v: W)
    requires Sound(ops, width, classOf, simple)
    ensures |ops.split(c)| == |ops.split(v)| == width
    ensures ops.meets(c, v) <==> NoveltyOf(ops.split(c), ops.split(v)) > 0
  {
    hide NoveltyOf, SoundDiscover, MapBytes;
  }

  /** The bytes of the map in memory order. */
  ghost function Bytes<W>(ops: WordOps<W>, ws: seq<W>): seq<bv8> {
    if ws == [] then [] else Bytes(ops, ws[..|ws| - 1]) + ops.split(ws[|ws| - 1])
  }

  lemma {:induction false} BytesLength<W(!new)>(ops: WordOps<W>, ws: seq<W>, width: nat)
    requires forall w :: |ops.split(w)| == width
    ensures |Bytes(ops, ws)| == |ws| * width
  {
    if ws != [] {
      BytesLength(ops, ws[..|ws| - 1], width);
      assert (|ws| - 1) * width + width == |ws| * width;
    }
  }

  lemma BytesSnoc<W>(ops: WordOps<W>, ws: seq<W>, n: nat)
    requires n < |ws|
    ensures Bytes(ops, ws[..n + 1]) == Bytes(ops, ws[..n]) + ops.split(ws[n])
  {
    assert ws[..n + 1][..n] == ws[..n];
  }

  lemma ClearConcat(a: seq<bv8>, b: seq<bv8>, c: seq<bv8>, d: seq<bv8>)
    requires |a| == |c| && |b| == |d|
    ensures Clear(a + b, c + d) == Clear(a, c) + Clear(b, d)
  {
    hide AndNot;
  }

  lemma MapConcat(f: bv8 -> bv8, a: seq<bv8>, b: seq<bv8>)
    ensures MapBytes(f, a + b) == MapBytes(f, a) + MapBytes(f, b)
  {
  }

  /** The novelty and the virgin bytes after the first `n` words. */
  ghost predicate Discovered<W(!new)>(ops: WordOps<W>, cur: seq<W>, before: seq<W>, after: seq<W>, n: nat, ret: nat) {
    && |cur| == |before| == |after| && n <= |cur|
    && (forall w, v :: |ops.split(w)| == |ops.split(v)|)
    && |Bytes(ops, cur[..n])| == |Bytes(ops, before[..n])|
    && ret == NoveltyOf(Bytes(ops, cur[..n]), Bytes(ops, before[..n]))
    && Bytes(ops, after[..n]) == Clear(Bytes(ops, cur[..n]), Bytes(ops, before[..n]))
    && after[n..] == before[n..]
  }

  lemma DiscoverStep<W(!new)>(ops: WordOps<W>, width: nat, classOf: bv8 -> bv8, simple: bv8 -> bv8,
                              cur: seq<W>, before: seq<W>, after: seq<W>, n: nat, ret: nat)
    requires Sound(ops, width, classOf, simple) && Discovered(ops, cur, before, after, n, ret) && n < |cur|
    requires ret <= 2
    ensures var (ret', v) := ops.discover(ret, cur[n], before[n]);
            Discovered(ops, cur, before, after[n := v], n + 1, ret')
  {
    hide NoveltyOf, Clear, Bytes, MapBytes;
    var (ret', v) := ops.discover(ret, cur[n], before[n]);
    var after' := after[n := v];
    BytesSnoc(ops, cur, n);
    BytesSnoc(ops, before, n);
    BytesSnoc(ops, after', n);
    assert after'[..n] == after[..n];
    var c, b := Bytes(ops, cur[..n]), Bytes(ops, before[..n]);
    NoveltyConcat(c, ops.split(cur[n]), b, ops.split(before[n]));
    ClearConcat(c, ops.split(cur[n]), b, ops.split(before[n]));
    assert after'[n + 1..] == before[n + 1..];
  }

  /**
   discover_word over the whole map: the result is the largest novelty of any byte, and the virgin
   map loses exactly the bits of the trace.
   */
  method DiscoverAll<W(!new)>(ops: WordOps<W>, ghost width: nat, ghost classOf: bv8 -> bv8, ghost simple: bv8 -> bv8,
                              cur: seq<W>, virgin: array<W>) returns (ret: nat)
    requires Sound(ops, width, classOf, simple) && |cur| == virgin.Length
    modifies virgin
    ensures |Bytes(ops, cur)| == |Bytes(ops, old(virgin[..]))|
    ensures ret == NoveltyOf(Bytes(ops, cur), Bytes(ops, old(virgin[..])))
    ensures Bytes(ops, virgin[..]) == Clear(Bytes(ops, cur), Bytes(ops, old(virgin[..])))
  {
    hide Sound, NoveltyOf, Clear, Discovered;
    ghost var before := virgin[..];
    ret := 0;
    var i := 0;
    NoneDiscovered(ops, width, classOf, simple, cur, before);
    while i < |cur|
      invariant i <= |cur|
      invariant Discovered(ops, cur, before, virgin[..], i, ret)
    {
      ghost var v0 := virgin[..];
      RestUntouched(ops, cur, before, v0, i, ret);
      DiscoverStep(ops, width, classOf, simple, cur, before, v0, i, ret);
      var (r, v) := ops.discover(ret, cur[i], virgin[i]);
      ret := r;
      virgin[i] := v;
      assert virgin[..] == v0[i := v];
      i := i + 1;
    }
    AllDiscovered(ops, cur, before, virgin[..], ret);
  }

  /** The bytes of each trace. */
  ghost function ByteTraces<W>(ops: WordOps<W>, traces: seq<seq<W>>): (r: seq<seq<bv8>>)
    ensures |r| == |traces| && forall k | 0 <= k < |r| :: r[k] == Bytes(ops, traces[k])
  {
    seq(|traces|, k requires 0 <= k < |traces| => Bytes(ops, traces[k]))
  }

  /** Any sequence of traces: each result is the novelty against what the earlier ones left. */
  method DiscoverRun<W(!new)>(ops: WordOps<W>, ghost width: nat, ghost classOf: bv8 -> bv8, ghost simple: bv8 -> bv8,
                              traces: seq<seq<W>>, virgin: array<W>) returns (rets: seq<nat>)
    requires Sound(ops, width, classOf, simple) && forall k | 0 <= k < |traces| :: |traces[k]| == virgin.Length
    modifies virgin
    ensures var v0, bs := Bytes(ops, old(virgin[..])), ByteTraces(ops, traces);
            && |rets| == |traces|
            && (forall k | 0 <= k < |bs| :: |bs[k]| == |v0|)
            && Bytes(ops, virgin[..]) == After(bs, v0)
            && (forall k | 0 <= k < |bs| :: rets[k] == NoveltyOf(bs[k], After(bs[..k], v0)))
            && (Untouched(v0) ==> forall k | 0 <= k < |bs| :: rets[k] == 2 <==> HitsFirst(bs[..k], bs[k]))
  {
    hide Sound, NoveltyOf, Clear, Bytes, After, Untouched, HitsFirst;
    NothingAfter(Bytes(ops, virgin[..]));
    ghost var v0, bs := Bytes(ops, virgin[..]), ByteTraces(ops, traces);
    rets := [];
    SameLengths(ops, width, classOf, simple, traces, virgin[..]);
    assert bs[..0] == [];
    for k := 0 to |traces|
      invariant |rets| == k && |Bytes(ops, virgin[..])| == |v0|
      invariant Bytes(ops, virgin[..]) == After(bs[..k], v0)
      invariant forall j | 0 <= j < k :: rets[j] == NoveltyOf(bs[j], After(bs[..j], v0))
    {
      AfterSnoc(bs, v0, k);
      var r := DiscoverAll(ops, width, classOf, simple, traces[k], virgin);
      rets := rets + [r];
    }
    assert bs[..|traces|] == bs;
    if Untouched(v0) {
      forall k | 0 <= k < |bs|
        ensures rets[k] == 2 <==> HitsFirst(bs[..k], bs[k])
      {
        TwoIffFirstHit(bs[..k], v0, bs[k]);
      }
    }
  }

  lemma NothingAfter(vs: seq<bv8>)
    ensures After([], vs) == vs
  {
  }

  lemma AfterSnoc(traces: seq<seq<bv8>>, vs: seq<bv8>, k: nat)
    requires k < |traces| && forall j | 0 <= j < |traces| :: |traces[j]| == |vs|
    ensures After(traces[..k + 1], vs) == Clear(traces[k], After(traces[..k], vs))
  {
    hide Clear;
    assert traces[..k + 1][..k] == traces[..k];
  }

  lemma SameLengths<W(!new)>(ops: WordOps<W>, width: nat, classOf: bv8 -> bv8, simple: bv8 -> bv8,
                             traces: seq<seq<W>>, virgin: seq<W>)
    requires Sound(ops, width, classOf, simple) && forall k | 0 <= k < |traces| :: |traces[k]| == |virgin|
    ensures forall k | 0 <= k < |traces| :: |ByteTraces(ops, traces)[k]| == |Bytes(ops, virgin)|
  {
    hide NoveltyOf, Clear, MapBytes;
    BytesLength(ops, virgin, width);
    forall k | 0 <= k < |traces|
      ensures |ByteTraces(ops, traces)[k]| == |Bytes(ops, virgin)|
    {
      BytesLength(ops, traces[k], width);
    }
  }

  lemma NoneDiscovered<W(!new)>(ops: WordOps<W>, width: nat, classOf: bv8 -> bv8, simple: bv8 -> bv8,
                                cur: seq<W>, before: seq<W>)
    requires Sound(ops, width, classOf, simple) && |cur| == |before|
    ensures Discovered(ops, cur, before, before, 0, 0)
  {
  }

  lemma RestUntouched<W(!new)>(ops: WordOps<W>, cur: seq<W>, before: seq<W>, after: seq<W>, n: nat, ret: nat)
    requires Discovered(ops, cur, before, after, n, ret) && n < |cur|
    ensures after[n] == before[n] && ret <= 2
  {
    assert after[n..][0] == before[n..][0];
  }

  lemma AllDiscovered<W(!new)>(ops: WordOps<W>, cur: seq<W>, before: seq<W>, after: seq<W>, ret: nat)
    requires Discovered(ops, cur, before, after, |cur|, ret)
    ensures |Bytes(ops, cur)| == |Bytes(ops, before)|
    ensures ret == NoveltyOf(Bytes(ops, cur), Bytes(ops, before))
    ensures Bytes(ops, after) == Clear(Bytes(ops, cur), Bytes(ops, before))
  {
    assert cur[..|cur|] == cur && before[..|cur|] == before && after[..|cur|] == after;
  }

  /** A zero word is its own class. */
  lemma ZeroClass<W(!new)>(ops: WordOps<W>, width: nat, classOf: bv8 -> bv8, simple: bv8 -> bv8, w: W)
    requires Sound(ops, width, classOf, simple) && ops.isZero(w)
    ensures ops.split(w) == MapBytes(classOf, ops.split(w))
  {
    hide NoveltyOf, Clear;
  }

  lemma ClassIs<W(!new)>(ops: WordOps<W>, width: nat, classOf: bv8 -> bv8, simple: bv8 -> bv8, w: W)
    requires Sound(ops, width, classOf, simple)
    ensures ops.split(ops.classify(w)) == MapBytes(classOf, ops.split(w))
    ensures ops.split(ops.simplify(w)) == MapBytes(simple, ops.split(w))
  {
    hide NoveltyOf, Clear, MapBytes;
  }

  /** classify_counts: skipping zero words is no different from classifying every byte. */
  method ClassifyCounts<W(!new)>(ops: WordOps<W>, ghost width: nat, ghost classOf: bv8 -> bv8, ghost simple: bv8 -> bv8,
                                 mem: array<W>)
    requires Sound(ops, width, classOf, simple)
    modifies mem
    ensures Bytes(ops, mem[..]) == MapBytes(classOf, Bytes(ops, old(mem[..])))
    ensures forall i | 0 <= i < mem.Length ::
              mem[i] == if ops.isZero(old(mem[i])) then old(mem[i]) else ops.classify(old(mem[i]))
  {
    hide Sound, MapBytes, Bytes;
    ghost var before := mem[..];
    var i := 0;
    NoBytes(ops, classOf, before);
    while i < mem.Length
      invariant i <= mem.Length
      invariant forall j | i <= j < mem.Length :: mem[j] == before[j]
      invariant forall j | 0 <= j < i :: mem[j] == if ops.isZero(before[j]) then before[j] else ops.classify(before[j])
      invariant Bytes(ops, mem[..i]) == MapBytes(classOf, Bytes(ops, before[..i]))
    {
      ghost var done := mem[..i];
      ClassIs(ops, width, classOf, simple, before[i]);
      if ops.isZero(mem[i]) {
        ZeroClass(ops, width, classOf, simple, before[i]);
      } else {
        mem[i] := ops.classify(mem[i]);
      }
      BytesSnoc(ops, mem[..], i);
      BytesSnoc(ops, before, i);
      MapConcat(classOf, Bytes(ops, before[..i]), ops.split(before[i]));
      assert mem[..][..i] == done && mem[..][..i + 1] == mem[..i + 1];
      i := i + 1;
    }
    assert mem[..i] == mem[..] && before[..i] == before;
  }

  lemma NoBytes<W>(ops: WordOps<W>, f: bv8 -> bv8, ws: seq<W>)
    ensures Bytes(ops, ws[..0]) == [] == MapBytes(f, Bytes(ops, ws[..0]))
  {
  }

  /** simplify_trace: every byte through the table, also in the words that take the shortcut. */
  method SimplifyTrace<W(!new)>(ops: WordOps<W>, ghost width: nat, ghost classOf: bv8 -> bv8, ghost simple: bv8 -> bv8,
                                mem: array<W>)
    requires Sound(ops, width, classOf, simple)
    modifies mem
    ensures Bytes(ops, mem[..]) == MapBytes(simple, Bytes(ops, old(mem[..])))
  {
    hide Sound, MapBytes, Bytes;
    ghost var before := mem[..];
    var i := 0;
    NoBytes(ops, simple, before);
    while i < mem.Length
      invariant i <= mem.Length
      invariant forall j | i <= j < mem.Length :: mem[j] == before[j]
      invariant Bytes(ops, mem[..i]) == MapBytes(simple, Bytes(ops, before[..i]))
    {
      ghost var done := mem[..i];
      ClassIs(ops, width, classOf, simple, before[i]);
      mem[i] := ops.simplify(mem[i]);
      BytesSnoc(ops, mem[..], i);
      BytesSnoc(ops, before, i);
      MapConcat(simple, Bytes(ops, before[..i]), ops.split(before[i]));
      assert mem[..][..i] == done && mem[..][..i + 1] == mem[..i + 1];
      i := i + 1;
    }
    assert mem[..i] == mem[..] && before[..i] == before;
  }

  // ---------- skim ----------

  /** Some word of the raw trace, once classified, has a virgin bit. */
  ghost predicate Interesting<W>(ops: WordOps<W>, cur: seq<W>, virgin: seq<W>)
    requires |cur| == |virgin|
  {
    exists i :: 0 <= i < |cur| && ops.meets(ops.classify(cur[i]), virgin[i])
  }

  /** A zero word has nothing new, so skipping it is safe. */
  lemma ZeroIsBoring<W(!new)>(ops: WordOps<W>, width: nat, classOf: bv8 -> bv8, simple: bv8 -> bv8, w: W, v: W)
    requires Sound(ops, width, classOf, simple) && ops.isZero(w)
    ensures !ops.meets(ops.classify(w), v)
  {
    hide NoveltyOf, Clear;
    var bs, vs := ops.split(ops.classify(w)), ops.split(v);
    ZeroClass(ops, width, classOf, simple, w);
    ClassIs(ops, width, classOf, simple, w);
    NewIffMeets(bs, vs);
    assert bs == ops.split(w);
    forall i | 0 <= i < width
      ensures !Meets(bs[i], vs[i])
    {
      assert bs[i] == 0;
    }
  }

  /** A map of whole groups: the scalar skim and the AVX2 one step by four words, the AVX512 one by eight. */
  predicate InGroups(words: nat, lanes: nat) {
    if lanes == 8 then words % 8 == 0 else words % 4 == 0
  }

  /** The scalar skim: groups of four words, each word tested for zero first. */
  method SkimScalar<W(!new)>(ops: WordOps<W>, ghost width: nat, ghost classOf: bv8 -> bv8, ghost simple: bv8 -> bv8,
                             virgin: seq<W>, cur: seq<W>) returns (r: bool)
    requires Sound(ops, width, classOf, simple) && |cur| == |virgin| && |cur| % 4 == 0
    ensures r <==> Interesting(ops, cur, virgin)
  {
    hide Sound;
    var i := 0;
    while i < |cur|
      invariant i <= |cur| && i % 4 == 0
      invariant forall j | 0 <= j < i :: !ops.meets(ops.classify(cur[j]), virgin[j])
    {
      GroupFits(|cur|, i, 4);
      for x := 0 to 4
        invariant forall j | 0 <= j < i + x :: !ops.meets(ops.classify(cur[j]), virgin[j])
      {
        if !ops.isZero(cur[i + x]) && ops.meets(ops.classify(cur[i + x]), virgin[i + x]) {
          return true;
        }
        if ops.isZero(cur[i + x]) {
          ZeroIsBoring(ops, width, classOf, simple, cur[i + x], virgin[i + x]);
        }
      }
      i := i + 4;
    }
    return false;
  }

  /** One vector: the mask of zero words is taken first; all zero means nothing to look at. */
  method SkimGroup<W(!new)>(ops: WordOps<W>, lanes: nat, ghost width: nat, ghost classOf: bv8 -> bv8,
                            ghost simple: bv8 -> bv8, virgin: seq<W>, cur: seq<W>) returns (r: bool)
    requires Sound(ops, width, classOf, simple) && |cur| == |virgin| == lanes
    ensures r <==> Interesting(ops, cur, virgin)
  {
    hide Sound;
    var mask := seq(lanes, x requires 0 <= x < lanes => ops.isZero(cur[x]));
    forall x | 0 <= x < lanes && mask[x]
      ensures !ops.meets(ops.classify(cur[x]), virgin[x])
    {
      ZeroIsBoring(ops, width, classOf, simple, cur[x], virgin[x]);
    }
    if forall x | 0 <= x < lanes :: mask[x] {
      return false;
    }
    for x := 0 to lanes
      invariant forall j | 0 <= j < x :: !ops.meets(ops.classify(cur[j]), virgin[j])
    {
      if !mask[x] && ops.meets(ops.classify(cur[x]), virgin[x]) {
        return true;
      }
    }
    return false;
  }

  /** The AVX2 (4 lanes) and AVX512 (8 lanes) skim. */
  method SkimVector<W(!new)>(ops: WordOps<W>, lanes: nat, ghost width: nat, ghost classOf: bv8 -> bv8,
                             ghost simple: bv8 -> bv8, virgin: seq<W>, cur: seq<W>) returns (r: bool)
    requires Sound(ops, width, classOf, simple) && |cur| == |virgin|
    requires (lanes == 4 || lanes == 8) && InGroups(|cur|, lanes)
    ensures r <==> Interesting(ops, cur, virgin)
  {
    hide Sound;
    var i := 0;
    while i < |cur|
      invariant i <= |cur| && InGroups(i, lanes)
      invariant forall j | 0 <= j < i :: !ops.meets(ops.classify(cur[j]), virgin[j])
    {
      GroupFits(|cur|, i, lanes);
      var found := SkimGroup(ops, lanes, width, classOf, simple, virgin[i..i + lanes], cur[i..i + lanes]);
      if found {
        var c, v := cur[i..i + lanes], virgin[i..i + lanes];
        ghost var x :| 0 <= x < lanes && ops.meets(ops.classify(c[x]), v[x]);
        assert ops.meets(ops.classify(cur[i + x]), virgin[i + x]);
        return true;
      }
      GroupIsBoring(ops, virgin, cur, i, lanes);
      i := i + lanes;
    }
    return false;
  }

  lemma GroupFits(size: nat, i: nat, lanes: nat)
    requires (lanes == 4 || lanes == 8) && InGroups(size, lanes) && InGroups(i, lanes) && i < size
    ensures i + lanes <= size && InGroups(i + lanes, lanes)
  {
  }

  lemma GroupIsBoring<W>(ops: WordOps<W>, virgin: seq<W>, cur: seq<W>, i: nat, lanes: nat)
    requires i + lanes <= |cur| == |virgin|
    requires !Interesting(ops, cur[i..i + lanes], virgin[i..i + lanes])
    ensures forall j | i <= j < i + lanes :: !ops.meets(ops.classify(cur[j]), virgin[j])
  {
    forall j | i <= j < i + lanes
      ensures !ops.meets(ops.classify(cur[j]), virgin[j])
    {
      var c, v := cur[i..i + lanes], virgin[i..i + lanes];
      assert !ops.meets(ops.classify(c[j - i]), v[j - i]);
    }
  }

  /** Novelty of two maps, word by word. */
  lemma {:induction false} NewIffSomeWord<W(!new)>(ops: WordOps<W>, width: nat, classOf: bv8 -> bv8, simple: bv8 -> bv8,
                                                   cs: seq<W>, vs: seq<W>)
    requires Sound(ops, width, classOf, simple) && |cs| == |vs|
    ensures |Bytes(ops, cs)| == |Bytes(ops, vs)|
    ensures NoveltyOf(Bytes(ops, cs), Bytes(ops, vs)) > 0 <==> exists i :: 0 <= i < |cs| && ops.meets(cs[i], vs[i])
  {
    hide NoveltyOf, Sound;
    if cs == [] {
      NoNovelty();
    } else {
      var n := |cs| - 1;
      NewIffSomeWord(ops, width, classOf, simple, cs[..n], vs[..n]);
      MeetsIs(ops, width, classOf, simple, cs[n], vs[n]);
      NoveltyConcat(Bytes(ops, cs[..n]), ops.split(cs[n]), Bytes(ops, vs[..n]), ops.split(vs[n]));
      if i :| 0 <= i < n && ops.meets(cs[..n][i], vs[..n][i]) {
        assert ops.meets(cs[i], vs[i]);
      }
      if i :| 0 <= i < n && ops.meets(cs[i], vs[i]) {
        assert ops.meets(cs[..n][i], vs[..n][i]);
      }
    }
  }

  lemma NoNovelty()
    ensures NoveltyOf([], []) == 0
  {
  }

  /** Nothing new means that clearing changes no byte. */
  lemma NothingNewNothingCleared(cs: seq<bv8>, vs: seq<bv8>)
    requires |cs| == |vs| && NoveltyOf(cs, vs) == 0
    ensures Clear(cs, vs) == vs
  {
    hide NoveltyOf, AndNot, Meets;
    NewIffMeets(cs, vs);
    forall i | 0 <= i < |vs|
      ensures AndNot(vs[i], cs[i]) == vs[i]
    {
      DisjointStays(cs[i], vs[i]);
    }
  }

  lemma DisjointStays(c: bv8, v: bv8)
    requires !Meets(c, v)
    ensures AndNot(v, c) == v
  {
  }

  /**
   skim answers what the slow path would: classify the trace, then discover. When it answers no,
   the slow path reports 0 and leaves the virgin map as it is.
   */
  method SlowPath<W(!new)>(ops: WordOps<W>, ghost width: nat, ghost classOf: bv8 -> bv8, ghost simple: bv8 -> bv8,
                           trace: array<W>, virgin: array<W>, lanes: nat) returns (fast: bool, ret: nat)
    requires Sound(ops, width, classOf, simple) && trace.Length == virgin.Length && trace != virgin
    requires (lanes == 0 || lanes == 4 || lanes == 8) && InGroups(trace.Length, lanes)
    modifies trace, virgin
    ensures fast <==> ret > 0
    ensures !fast ==> Bytes(ops, virgin[..]) == Bytes(ops, old(virgin[..]))
  {
    hide Sound, NoveltyOf, Clear, MapBytes, Bytes;
    if lanes == 0 {
      fast := SkimScalar(ops, width, classOf, simple, virgin[..], trace[..]);
    } else {
      fast := SkimVector(ops, lanes, width, classOf, simple, virgin[..], trace[..]);
    }
    ghost var raw, v0 := trace[..], virgin[..];
    ClassifyCounts(ops, width, classOf, simple, trace);
    SkimAgrees(ops, width, classOf, simple, raw, trace[..], v0);
    ret := DiscoverAll(ops, width, classOf, simple, trace[..], virgin);
    if !fast {
      NothingNewNothingCleared(Bytes(ops, trace[..]), Bytes(ops, v0));
    }
  }

  lemma SkimAgrees<W(!new)>(ops: WordOps<W>, width: nat, classOf: bv8 -> bv8, simple: bv8 -> bv8,
                            raw: seq<W>, classified: seq<W>, virgin: seq<W>)
    requires Sound(ops, width, classOf, simple) && |raw| == |classified| == |virgin|
    requires forall i | 0 <= i < |raw| :: classified[i] == if ops.isZero(raw[i]) then raw[i] else ops.classify(raw[i])
    ensures |Bytes(ops, classified)| == |Bytes(ops, virgin)|
    ensures Interesting(ops, raw, virgin) <==> NoveltyOf(Bytes(ops, classified), Bytes(ops, virgin)) > 0
  {
    hide Sound, NoveltyOf, Bytes;
    NewIffSomeWord(ops, width, classOf, simple, classified, virgin);
    forall i | 0 <= i < |raw|
      ensures ops.meets(ops.classify(raw[i]), virgin[i]) <==> ops.meets(classified[i], virgin[i])
    {
      if ops.isZero(raw[i]) {
        ZeroIsBoring(ops, width, classOf, simple, raw[i], virgin[i]);
        ZeroMeetsNothing(ops, width, classOf, simple, raw[i], virgin[i]);
      }
    }
    if i :| 0 <= i < |raw| && ops.meets(classified[i], virgin[i]) {
      assert ops.meets(ops.classify(raw[i]), virgin[i]);
    }
    if i :| 0 <= i < |raw| && ops.meets(ops.classify(raw[i]), virgin[i]) {
      assert ops.meets(classified[i], virgin[i]);
    }
  }

  lemma ZeroMeetsNothing<W(!new)>(ops: WordOps<W>, width: nat, classOf: bv8 -> bv8, simple: bv8 -> bv8, w: W, v: W)
    requires Sound(ops, width, classOf, simple) && ops.isZero(w)
    ensures !ops.meets(w, v)
  {
    hide NoveltyOf, Clear, MapBytes;
    NewIffMeets(ops.split(w), ops.split(v));
    forall i | 0 <= i < width
      ensures !Meets(ops.split(w)[i], ops.split(v)[i])
    {
      assert ops.split(w)[i] == 0;
    }
  }
}
