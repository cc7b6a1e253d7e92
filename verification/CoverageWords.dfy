/** The 64-bit and the 32-bit word operations of coverage-64.h and coverage-32.h, and their agreement. */
module CoverageWords {
  import opened CoverageBytes
  import opened CoverageMap

  // ---------- Halves of a word, in memory order ----------

  function Low(x: bv16): bv8 {
    (x & 0xff) as bv8
  }

  function High(x: bv16): bv8 {
    ((x >> 8) & 0xff) as bv8
  }

  function Lo16(w: bv32): bv16 {
    (w & 0xffff) as bv16
  }

  function Hi16(w: bv32): bv16 {
    ((w >> 16) & 0xffff) as bv16
  }

  function Lo32(w: bv64): bv32 {
    (w & 0xffffffff) as bv32
  }

  function Hi32(w: bv64): bv32 {
    ((w >> 32) & 0xffffffff) as bv32
  }

  function Join16(a: bv8, b: bv8): bv16 {
    a as bv16 | (b as bv16 << 8)
  }

  function Join32(a: bv16, b: bv16): bv32 {
    a as bv32 | (b as bv32 << 16)
  }

  function Join64(a: bv32, b: bv32): bv64 {
    a as bv64 | (b as bv64 << 32)
  }

  /** The bytes at the address of a 32-bit word. */
  function Split32(w: bv32): (s: seq<bv8>)
    ensures |s| == 4
  {
    [Low(Lo16(w)), High(Lo16(w)), Low(Hi16(w)), High(Hi16(w))]
  }

  /** The bytes at the address of a 64-bit word. */
  function Split64(w: bv64): (s: seq<bv8>)
    ensures |s| == 8
  {
    Split32(Lo32(w)) + Split32(Hi32(w))
  }

  /** The two words have a bit in common. */
  predicate Common32(c: bv32, v: bv32) {
    c & v != 0
  }

  predicate Common64(c: bv64, v: bv64) {
    c & v != 0
  }

  function AndNot32(v: bv32, c: bv32): bv32 {
    v & !c
  }

  function AndNot64(v: bv64, c: bv64): bv64 {
    v & !c
  }

  predicate IsZero32(w: bv32) {
    w == 0
  }

  predicate IsZero64(w: bv64) {
    w == 0
  }

  // ---------- discover_word ----------

  function Discover64(ret: nat, c: bv64, v: bv64): (nat, bv64) {
    if Common64(c, v) then
      var cur, vir := Split64(c), Split64(v);
      var ret' :=
        if ret < 2 then
          if Pristine(cur[0], vir[0]) || Pristine(cur[1], vir[1]) || Pristine(cur[2], vir[2]) || Pristine(cur[3], vir[3])
             || Pristine(cur[4], vir[4]) || Pristine(cur[5], vir[5]) || Pristine(cur[6], vir[6]) || Pristine(cur[7], vir[7])
          then 2 else 1
        else ret;
      (ret', AndNot64(v, c))
    else (ret, v)
  }

  function Discover32(ret: nat, c: bv32, v: bv32): (nat, bv32) {
    if Common32(c, v) then
      var cur, vir := Split32(c), Split32(v);
      var ret' :=
        if ret < 2 then
          if Pristine(cur[0], vir[0]) || Pristine(cur[1], vir[1]) || Pristine(cur[2], vir[2]) || Pristine(cur[3], vir[3])
          then 2 else 1
        else ret;
      (ret', AndNot32(v, c))
    else (ret, v)
  }

  // ---------- classify_word ----------

  /** A 16-bit table that classifies each of its two bytes on its own. */
  ghost predicate PerByte(table: bv16 -> bv16, classOf: bv8 -> bv8) {
    && classOf(0) == 0
    && forall x: bv16 :: EntryPerByte(table, classOf, x)
  }

  ghost predicate EntryPerByte(table: bv16 -> bv16, classOf: bv8 -> bv8, x: bv16) {
    Low(table(x)) == classOf(Low(x)) && High(table(x)) == classOf(High(x))
  }

  /** Two table lookups, one per 16-bit half. */
  function Classify32(table: bv16 -> bv16, w: bv32): bv32 {
    Join32(table(Lo16(w)), table(Hi16(w)))
  }

  /** Four table lookups, one per 16-bit quarter. */
  function Classify64(table: bv16 -> bv16, w: bv64): bv64 {
    Join64(Classify32(table, Lo32(w)), Classify32(table, Hi32(w)))
  }

  // ---------- simplify_trace, one word ----------

  function Each16(f: bv8 -> bv8, x: bv16): bv16 {
    Join16(f(Low(x)), f(High(x)))
  }

  function Each32(f: bv8 -> bv8, w: bv32): bv32 {
    Join32(Each16(f, Lo16(w)), Each16(f, Hi16(w)))
  }

  function Each64(f: bv8 -> bv8, w: bv64): bv64 {
    Join64(Each32(f, Lo32(w)), Each32(f, Hi32(w)))
  }

  function Simplify32(simple: bv8 -> bv8, w: bv32): bv32 {
    if !IsZero32(w) then Each32(simple, w) else 0x01010101
  }

  function Simplify64(simple: bv8 -> bv8, w: bv64): bv64 {
    if !IsZero64(w) then Each64(simple, w) else 0x0101010101010101
  }

  // ---------- Facts about halves ----------

  lemma JoinedBytes(a: bv8, b: bv8)
    ensures Low(Join16(a, b)) == a && High(Join16(a, b)) == b
  {
  }

  lemma JoinedHalves32(a: bv16, b: bv16)
    ensures Lo16(Join32(a, b)) == a && Hi16(Join32(a, b)) == b
  {
  }

  lemma JoinedHalves64(a: bv32, b: bv32)
    ensures Lo32(Join64(a, b)) == a && Hi32(Join64(a, b)) == b
  {
  }

  predicate Common16(c: bv16, v: bv16) {
    c & v != 0
  }

  lemma CommonBytes16(c: bv16, v: bv16)
    ensures Common16(c, v) <==> Meets(Low(c), Low(v)) || Meets(High(c), High(v))
  {
  }

  lemma CommonHalves32(c: bv32, v: bv32)
    ensures Common32(c, v) <==> Common16(Lo16(c), Lo16(v)) || Common16(Hi16(c), Hi16(v))
  {
  }

  lemma CommonHalves64(c: bv64, v: bv64)
    ensures Common64(c, v) <==> Common32(Lo32(c), Lo32(v)) || Common32(Hi32(c), Hi32(v))
  {
  }

  lemma ClearedLow32(c: bv32, v: bv32)
    ensures Low(Lo16(AndNot32(v, c))) == AndNot(Low(Lo16(v)), Low(Lo16(c)))
    ensures High(Lo16(AndNot32(v, c))) == AndNot(High(Lo16(v)), High(Lo16(c)))
  {
  }

  lemma ClearedHigh32(c: bv32, v: bv32)
    ensures Low(Hi16(AndNot32(v, c))) == AndNot(Low(Hi16(v)), Low(Hi16(c)))
    ensures High(Hi16(AndNot32(v, c))) == AndNot(High(Hi16(v)), High(Hi16(c)))
  {
  }

  lemma ClearedHalves64(c: bv64, v: bv64)
    ensures Lo32(AndNot64(v, c)) == AndNot32(Lo32(v), Lo32(c))
    ensures Hi32(AndNot64(v, c)) == AndNot32(Hi32(v), Hi32(c))
  {
  }

  lemma Disjoint32(c: bv32, v: bv32)
    requires !Common32(c, v)
    ensures AndNot32(v, c) == v
  {
  }

  lemma Disjoint64(c: bv64, v: bv64)
    requires !Common64(c, v)
    ensures AndNot64(v, c) == v
  {
  }

  lemma ZeroBytes32(w: bv32)
    ensures IsZero32(w) <==> Low(Lo16(w)) == 0 && High(Lo16(w)) == 0 && Low(Hi16(w)) == 0 && High(Hi16(w)) == 0
  {
  }

  lemma ZeroHalves64(w: bv64)
    ensures IsZero64(w) <==> IsZero32(Lo32(w)) && IsZero32(Hi32(w))
  {
  }

  lemma OnesBytes()
    ensures Low(0x0101) == 1 && High(0x0101) == 1
    ensures Lo16(0x01010101) == 0x0101 && Hi16(0x01010101) == 0x0101
    ensures Lo32(0x0101010101010101) == 0x01010101 && Hi32(0x0101010101010101) == 0x01010101
  {
  }

  // ---------- One word is its bytes ----------

  lemma CommonIffNew32(c: bv32, v: bv32)
    ensures Common32(c, v) <==> NoveltyOf(Split32(c), Split32(v)) > 0
  {
    hide Low, High, Lo16, Hi16, Meets, NoveltyOf, Common32, Common16;
    CommonHalves32(c, v);
    CommonBytes16(Lo16(c), Lo16(v));
    CommonBytes16(Hi16(c), Hi16(v));
    var cs, vs := Split32(c), Split32(v);
    NewIffMeets(cs, vs);
    if Common32(c, v) {
      assert Meets(cs[0], vs[0]) || Meets(cs[1], vs[1]) || Meets(cs[2], vs[2]) || Meets(cs[3], vs[3]);
    }
  }

  lemma CommonIffNew64(c: bv64, v: bv64)
    ensures Common64(c, v) <==> NoveltyOf(Split64(c), Split64(v)) > 0
  {
    hide Lo32, Hi32, Split32, NoveltyOf, Common32, Common64;
    CommonHalves64(c, v);
    CommonIffNew32(Lo32(c), Lo32(v));
    CommonIffNew32(Hi32(c), Hi32(v));
    NoveltyConcat(Split32(Lo32(c)), Split32(Hi32(c)), Split32(Lo32(v)), Split32(Hi32(v)));
  }

  lemma Cleared32(c: bv32, v: bv32)
    ensures Split32(AndNot32(v, c)) == Clear(Split32(c), Split32(v))
  {
    hide Low, High, Lo16, Hi16, AndNot, AndNot32;
    ClearedLow32(c, v);
    ClearedHigh32(c, v);
  }

  lemma Cleared64(c: bv64, v: bv64)
    ensures Split64(AndNot64(v, c)) == Clear(Split64(c), Split64(v))
  {
    hide Lo32, Hi32, Split32, Clear, AndNot32, AndNot64;
    ClearedHalves64(c, v);
    Cleared32(Lo32(c), Lo32(v));
    Cleared32(Hi32(c), Hi32(v));
    ClearConcat(Split32(Lo32(c)), Split32(Hi32(c)), Split32(Lo32(v)), Split32(Hi32(v)));
  }

  /** One word of discover_word: the largest novelty of its bytes, and their bits cleared. */
  lemma DiscoverSound32(ret: nat, c: bv32, v: bv32)
    requires ret <= 2
    ensures Discover32(ret, c, v).0 == Max(ret, NoveltyOf(Split32(c), Split32(v)))
    ensures Split32(Discover32(ret, c, v).1) == Clear(Split32(c), Split32(v))
  {
    hide Split32, Pristine, NoveltyOf, Clear, Common32, AndNot32;
    CommonIffNew32(c, v);
    TwoIffPristine(Split32(c), Split32(v));
    Cleared32(c, v);
    if !Common32(c, v) {
      Disjoint32(c, v);
    }
  }

  lemma DiscoverSound64(ret: nat, c: bv64, v: bv64)
    requires ret <= 2
    ensures Discover64(ret, c, v).0 == Max(ret, NoveltyOf(Split64(c), Split64(v)))
    ensures Split64(Discover64(ret, c, v).1) == Clear(Split64(c), Split64(v))
  {
    hide Split64, Pristine, NoveltyOf, Clear, Common64, AndNot64;
    CommonIffNew64(c, v);
    TwoIffPristine(Split64(c), Split64(v));
    Cleared64(c, v);
    if !Common64(c, v) {
      Disjoint64(c, v);
    }
  }

  lemma ClassifySound32(table: bv16 -> bv16, classOf: bv8 -> bv8, w: bv32)
    requires PerByte(table, classOf)
    ensures Split32(Classify32(table, w)) == MapBytes(classOf, Split32(w))
  {
    hide Low, High, Lo16, Hi16, Join32;
    assert EntryPerByte(table, classOf, Lo16(w)) && EntryPerByte(table, classOf, Hi16(w));
    JoinedHalves32(table(Lo16(w)), table(Hi16(w)));
  }

  lemma ClassifySound64(table: bv16 -> bv16, classOf: bv8 -> bv8, w: bv64)
    requires PerByte(table, classOf)
    ensures Split64(Classify64(table, w)) == MapBytes(classOf, Split64(w))
  {
    hide Lo32, Hi32, Split32, Join64, Classify32, MapBytes, PerByte;
    JoinedHalves64(Classify32(table, Lo32(w)), Classify32(table, Hi32(w)));
    ClassifySound32(table, classOf, Lo32(w));
    ClassifySound32(table, classOf, Hi32(w));
    MapConcat(classOf, Split32(Lo32(w)), Split32(Hi32(w)));
  }

  lemma EachSound32(f: bv8 -> bv8, w: bv32)
    ensures Split32(Each32(f, w)) == MapBytes(f, Split32(w))
  {
    hide Low, High, Lo16, Hi16, Join16, Join32;
    JoinedHalves32(Each16(f, Lo16(w)), Each16(f, Hi16(w)));
    JoinedBytes(f(Low(Lo16(w))), f(High(Lo16(w))));
    JoinedBytes(f(Low(Hi16(w))), f(High(Hi16(w))));
  }

  lemma SimplifySound32(simple: bv8 -> bv8, w: bv32)
    requires simple(0) == 1
    ensures Split32(Simplify32(simple, w)) == MapBytes(simple, Split32(w))
  {
    hide Low, High, Lo16, Hi16, Each32, IsZero32;
    EachSound32(simple, w);
    ZeroBytes32(w);
    OnesBytes();
  }

  lemma SimplifySound64(simple: bv8 -> bv8, w: bv64)
    requires simple(0) == 1
    ensures Split64(Simplify64(simple, w)) == MapBytes(simple, Split64(w))
  {
    hide Lo32, Hi32, Split32, Join64, Each32, MapBytes, IsZero64, IsZero32;
    MapConcat(simple, Split32(Lo32(w)), Split32(Hi32(w)));
    if IsZero64(w) {
      ZeroHalves64(w);
      SimplifySound32(simple, Lo32(w));
      SimplifySound32(simple, Hi32(w));
      OnesBytes();
    } else {
      JoinedHalves64(Each32(simple, Lo32(w)), Each32(simple, Hi32(w)));
      EachSound32(simple, Lo32(w));
      EachSound32(simple, Hi32(w));
    }
  }

  lemma ZeroIff32(w: bv32)
    ensures IsZero32(w) <==> forall i | 0 <= i < 4 :: Split32(w)[i] == 0
  {
    hide Low, High, Lo16, Hi16, IsZero32;
    ZeroBytes32(w);
    var s := Split32(w);
    if forall i | 0 <= i < 4 :: s[i] == 0 {
      assert s[0] == 0 && s[1] == 0 && s[2] == 0 && s[3] == 0;
    }
  }

  lemma ZeroIff64(w: bv64)
    ensures IsZero64(w) <==> forall i | 0 <= i < 8 :: Split64(w)[i] == 0
  {
    hide Lo32, Hi32, Split32, IsZero32, IsZero64;
    ZeroHalves64(w);
    ZeroIff32(Lo32(w));
    ZeroIff32(Hi32(w));
    var s, l, h := Split64(w), Split32(Lo32(w)), Split32(Hi32(w));
    if forall i | 0 <= i < 8 :: s[i] == 0 {
      forall i | 0 <= i < 4
        ensures l[i] == 0 && h[i] == 0
      {
        assert s[i] == l[i] && s[i + 4] == h[i];
      }
    }
  }

  // ---------- The two builds ----------

  function Ops64(table: bv16 -> bv16, simple: bv8 -> bv8): WordOps<bv64> {
    WordOps(Split64, IsZero64, Common64, Discover64,
            (w: bv64) => Classify64(table, w), (w: bv64) => Simplify64(simple, w))
  }

  function Ops32(table: bv16 -> bv16, simple: bv8 -> bv8): WordOps<bv32> {
    WordOps(Split32, IsZero32, Common32, Discover32,
            (w: bv32) => Classify32(table, w), (w: bv32) => Simplify32(simple, w))
  }

  lemma Words64(table: bv16 -> bv16, classOf: bv8 -> bv8, simple: bv8 -> bv8)
    requires PerByte(table, classOf) && simple(0) == 1
    ensures SoundMaps(Ops64(table, simple), 8, classOf, simple)
  {
    hide Split64, Classify64, Simplify64, MapBytes, IsZero64, Common64, EntryPerByte;
    var ops := Ops64(table, simple);
    forall w
      ensures |ops.split(w)| == 8
      ensures (ops.isZero(w) <==> forall i | 0 <= i < 8 :: ops.split(w)[i] == 0)
      ensures ops.split(ops.classify(w)) == MapBytes(classOf, ops.split(w))
      ensures ops.split(ops.simplify(w)) == MapBytes(simple, ops.split(w))
    {
      ZeroIff64(w);
      ClassifySound64(table, classOf, w);
      SimplifySound64(simple, w);
    }
  }

  lemma Pairs64(table: bv16 -> bv16, simple: bv8 -> bv8)
    ensures SoundMeets(Ops64(table, simple)) && SoundDiscover(Ops64(table, simple))
  {
    hide Split64, Discover64, NoveltyOf, Clear, Common64, IsZero64, Classify64, Simplify64;
    var ops := Ops64(table, simple);
    forall c, v
      ensures |ops.split(c)| == |ops.split(v)|
      ensures ops.meets(c, v) <==> NoveltyOf(ops.split(c), ops.split(v)) > 0
    {
      CommonIffNew64(c, v);
    }
    forall ret: nat, c, v | ret <= 2
      ensures |ops.split(c)| == |ops.split(v)|
      ensures ops.discover(ret, c, v).0 == Max(ret, NoveltyOf(ops.split(c), ops.split(v)))
      ensures ops.split(ops.discover(ret, c, v).1) == Clear(ops.split(c), ops.split(v))
    {
      DiscoverSound64(ret, c, v);
    }
  }

  lemma Sound64(table: bv16 -> bv16, classOf: bv8 -> bv8, simple: bv8 -> bv8)
    requires PerByte(table, classOf) && simple(0) == 1
    ensures Sound(Ops64(table, simple), 8, classOf, simple)
  {
    hide Ops64, SoundMaps, SoundMeets, SoundDiscover;
    Words64(table, classOf, simple);
    Pairs64(table, simple);
  }

  lemma Words32(table: bv16 -> bv16, classOf: bv8 -> bv8, simple: bv8 -> bv8)
    requires PerByte(table, classOf) && simple(0) == 1
    ensures SoundMaps(Ops32(table, simple), 4, classOf, simple)
  {
    hide Split32, Classify32, Simplify32, MapBytes, IsZero32, Common32, EntryPerByte;
    var ops := Ops32(table, simple);
    forall w
      ensures |ops.split(w)| == 4
      ensures (ops.isZero(w) <==> forall i | 0 <= i < 4 :: ops.split(w)[i] == 0)
      ensures ops.split(ops.classify(w)) == MapBytes(classOf, ops.split(w))
      ensures ops.split(ops.simplify(w)) == MapBytes(simple, ops.split(w))
    {
      ZeroIff32(w);
      ClassifySound32(table, classOf, w);
      SimplifySound32(simple, w);
    }
  }

  lemma Pairs32(table: bv16 -> bv16, simple: bv8 -> bv8)
    ensures SoundMeets(Ops32(table, simple)) && SoundDiscover(Ops32(table, simple))
  {
    hide Split32, Discover32, NoveltyOf, Clear, Common32, IsZero32, Classify32, Simplify32;
    var ops := Ops32(table, simple);
    forall c, v
      ensures |ops.split(c)| == |ops.split(v)|
      ensures ops.meets(c, v) <==> NoveltyOf(ops.split(c), ops.split(v)) > 0
    {
      CommonIffNew32(c, v);
    }
    forall ret: nat, c, v | ret <= 2
      ensures |ops.split(c)| == |ops.split(v)|
      ensures ops.discover(ret, c, v).0 == Max(ret, NoveltyOf(ops.split(c), ops.split(v)))
      ensures ops.split(ops.discover(ret, c, v).1) == Clear(ops.split(c), ops.split(v))
    {
      DiscoverSound32(ret, c, v);
    }
  }

  lemma Sound32(table: bv16 -> bv16, classOf: bv8 -> bv8, simple: bv8 -> bv8)
    requires PerByte(table, classOf) && simple(0) == 1
    ensures Sound(Ops32(table, simple), 4, classOf, simple)
  {
    hide Ops32, SoundMaps, SoundMeets, SoundDiscover;
    Words32(table, classOf, simple);
    Pairs32(table, simple);
  }

  /** On the same bytes, the 32-bit and the 64-bit build report the same and leave the same virgin bytes. */
  method BuildsAgree(table: bv16 -> bv16, ghost classOf: bv8 -> bv8, simple: bv8 -> bv8,
                     cur64: seq<bv64>, virgin64: array<bv64>, cur32: seq<bv32>, virgin32: array<bv32>)
    returns (ret64: nat, ret32: nat)
    requires PerByte(table, classOf) && simple(0) == 1
    requires |cur64| == virgin64.Length && |cur32| == virgin32.Length
    requires Bytes(Ops64(table, simple), cur64) == Bytes(Ops32(table, simple), cur32)
    requires Bytes(Ops64(table, simple), virgin64[..]) == Bytes(Ops32(table, simple), virgin32[..])
    modifies virgin64, virgin32
    ensures ret64 == ret32
    ensures Bytes(Ops64(table, simple), virgin64[..]) == Bytes(Ops32(table, simple), virgin32[..])
  {
    hide Ops64, Ops32, Bytes, NoveltyOf, Clear, Sound, PerByte;
    Sound64(table, classOf, simple);
    Sound32(table, classOf, simple);
    ghost var v32 := virgin32[..];
    ret64 := DiscoverAll(Ops64(table, simple), 8, classOf, simple, cur64, virgin64);
    assert virgin32[..] == v32;
    ret32 := DiscoverAll(Ops32(table, simple), 4, classOf, simple, cur32, virgin32);
  }
}
