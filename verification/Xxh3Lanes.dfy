/** The XXH3 stripe kernel in its scalar and its AVX2 form, and the hashes built on each. */
module Xxh3Lanes {
  import opened Words
  import opened WideMultiply
  import Xxh3

  type Word = w: nat | w < TWO64
  type Acc = s: seq<Word> | |s| == 8 witness [0, 0, 0, 0, 0, 0, 0, 0]

  const PRIME32_1: nat := 0x9E3779B1

  function Bits(a: Word): bv64 {
    a as bv64
  }

  function FromBits(b: bv64): Word {
    b as nat
  }

  function Xor(a: Word, b: Word): Word {
    FromBits(Bits(a) ^ Bits(b))
  }

  function XorShift(a: Word, shift: nat): Word
    requires shift < 64
  {
    FromBits(Bits(a) ^ (Bits(a) >> shift))
  }

  /** XXH_readLE64 of lane `i`. */
  function Lane(bytes: seq<Byte>, i: nat): Word {
    if 8 * i + 8 <= |bytes|
    then EightBytesBound(bytes[8 * i..8 * i + 8]); Value(bytes[8 * i..8 * i + 8])
    else 0
  }

  /** lane ^ 1. */
  function Neighbour(i: nat): (j: nat)
    requires i < 8
    ensures j < 8 && j != i && (j == i + 1 || j == i - 1)
  {
    if i % 2 == 0 then i + 1 else i - 1
  }

  /** The vector product: the low halves of the key and of the key shifted by 32. */
  function Product(input: seq<Byte>, secret: seq<Byte>, i: nat): nat {
    var key := Xor(Lane(input, i), Lane(secret, i));
    Mul32(Low32(key), Low32(High32(key)))
  }

  /** The scalar product: the two halves of the key. */
  function ScalarProduct(input: seq<Byte>, secret: seq<Byte>, i: nat): nat {
    var data, key := Lane(input, i), Lane(secret, i);
    Mul32(Low32(Xor(data, key)), High32(Xor(data, key)))
  }

  lemma HalvesMultiplied(input: seq<Byte>, secret: seq<Byte>, i: nat)
    ensures ScalarProduct(input, secret, i) == Product(input, secret, i)
  {
    hide Xor, Lane;
    HighFits(Xor(Lane(input, i), Lane(secret, i)));
  }

  lemma HighFits(x: Word)
    ensures Low32(High32(x)) == High32(x)
  {
  }

  // ---------- Accumulate ----------

  /** XXH3_scalarRound: first the neighbour lane, then this lane. */
  function ScalarRound(acc: Acc, input: seq<Byte>, secret: seq<Byte>, lane: nat): Acc
    requires lane < 8
  {
    var other := Neighbour(lane);
    var acc1 := acc[other := Add64(acc[other], Lane(input, lane))];
    acc1[lane := Add64(acc1[lane], ScalarProduct(input, secret, lane))]
  }

  /** The lane-sequential loop, up to lane `n`. */
  function ScalarRounds(acc: Acc, input: seq<Byte>, secret: seq<Byte>, n: nat): Acc
    requires n <= 8
  {
    if n == 0 then acc else ScalarRound(ScalarRounds(acc, input, secret, n - 1), input, secret, n - 1)
  }

  function ScalarAccumulate(acc: Acc, input: seq<Byte>, secret: seq<Byte>): Acc {
    ScalarRounds(acc, input, secret, 8)
  }

  /** XXH3_accumulate_512_avx2: every lane at once, from the swapped data and the product. */
  function VectorLane(acc: Acc, input: seq<Byte>, secret: seq<Byte>, i: nat): Word
    requires i < 8
  {
    Add64(Product(input, secret, i), Add64(acc[i], Lane(input, Neighbour(i))))
  }

  function VectorAccumulate(acc: Acc, input: seq<Byte>, secret: seq<Byte>): Acc {
    seq(8, i requires 0 <= i < 8 => VectorLane(acc, input, secret, i))
  }

  /** What lane `i` holds once the rounds below `n` are done. */
  ghost function Partial(acc: Acc, input: seq<Byte>, secret: seq<Byte>, i: nat, n: nat): Word
    requires i < 8
  {
    (acc[i] + (if Neighbour(i) < n then Lane(input, Neighbour(i)) else 0)
            + (if i < n then Product(input, secret, i) else 0)) % TWO64
  }

  lemma AddTwice(a: nat, b: nat, c: nat)
    ensures ((a + b) % TWO64 + c) % TWO64 == (a + b + c) % TWO64 == (c + (a + b) % TWO64) % TWO64
  {
  }

  /** One more round: lane `n` gets its product, its neighbour the data, the others nothing. */
  lemma PartialStep(acc: Acc, input: seq<Byte>, secret: seq<Byte>, i: nat, n: nat)
    requires i < 8 && n < 8
    ensures Partial(acc, input, secret, i, n + 1)
         == if i == n then Add64(Partial(acc, input, secret, i, n), Product(input, secret, n))
            else if i == Neighbour(n) then Add64(Partial(acc, input, secret, i, n), Lane(input, n))
            else Partial(acc, input, secret, i, n)
  {
    hide Product, Lane;
    var d := Lane(input, Neighbour(i));
    if i == n {
      AddTwice(acc[i], if Neighbour(i) < n then d else 0, Product(input, secret, n));
    } else if i == Neighbour(n) {
      assert Neighbour(i) == n;
      AddTwice(acc[i], if i < n then Product(input, secret, i) else 0, Lane(input, n));
    } else {
      assert Neighbour(i) != n;
    }
  }

  lemma {:induction false} RoundsGivePartial(acc: Acc, input: seq<Byte>, secret: seq<Byte>, n: nat)
    requires n <= 8
    ensures forall i | 0 <= i < 8 :: ScalarRounds(acc, input, secret, n)[i] == Partial(acc, input, secret, i, n)
  {
    hide Product, ScalarProduct, Lane, Partial;
    if n == 0 {
      forall i | 0 <= i < 8
        ensures acc[i] == Partial(acc, input, secret, i, 0)
      {
        PartialAtZero(acc, input, secret, i);
      }
    } else {
      RoundsGivePartial(acc, input, secret, n - 1);
      HalvesMultiplied(input, secret, n - 1);
      forall i | 0 <= i < 8
        ensures ScalarRounds(acc, input, secret, n)[i] == Partial(acc, input, secret, i, n)
      {
        PartialStep(acc, input, secret, i, n - 1);
      }
    }
  }

  lemma PartialAtZero(acc: Acc, input: seq<Byte>, secret: seq<Byte>, i: nat)
    requires i < 8
    ensures Partial(acc, input, secret, i, 0) == acc[i]
  {
  }

  /** One stripe: the sequential loop with its cross-lane adds is the vector form. */
  lemma AccumulateAgrees(acc: Acc, input: seq<Byte>, secret: seq<Byte>)
    ensures ScalarAccumulate(acc, input, secret) == VectorAccumulate(acc, input, secret)
  {
    hide Product, Lane, ScalarRounds;
    RoundsGivePartial(acc, input, secret, 8);
    var s, v := ScalarAccumulate(acc, input, secret), VectorAccumulate(acc, input, secret);
    forall i | 0 <= i < 8
      ensures s[i] == v[i]
    {
      AddTwice(acc[i], Lane(input, Neighbour(i)), Product(input, secret, i));
    }
    assert s == v;
  }

  /** XXH3_accumulate_512_scalar on the accumulator array. */
  method Accumulate512(acc: array<Word>, input: seq<Byte>, secret: seq<Byte>)
    requires acc.Length == 8
    modifies acc
    ensures acc[..] == VectorAccumulate(old(acc[..]), input, secret)
  {
    hide Product, ScalarProduct, Lane, VectorLane;
    ghost var start := acc[..];
    for i := 0 to 8
      invariant acc[..] == ScalarRounds(start, input, secret, i)
    {
      var other := Neighbour(i);
      acc[other] := Add64(acc[other], Lane(input, i));
      acc[i] := Add64(acc[i], ScalarProduct(input, secret, i));
    }
    AccumulateAgrees(start, input, secret);
  }

  // ---------- Scramble ----------

  function ScrambleKey(acc: Acc, secret: seq<Byte>, i: nat): Word
    requires i < 8
  {
    Xor(XorShift(acc[i], 47), Lane(secret, i))
  }

  /** The 64-bit product of XXH3_scalarScrambleRound. */
  function FullProduct(x: Word): Word {
    x * PRIME32_1 % TWO64
  }

  /** The AVX2 form: two 32-bit products, the high one shifted. */
  function SplitProduct(x: Word): Word {
    Add64(Low32(x) * PRIME32_1, Shl32(High32(x) * PRIME32_1))
  }

  function ScalarScramble(acc: Acc, secret: seq<Byte>): Acc {
    seq(8, i requires 0 <= i < 8 => FullProduct(ScrambleKey(acc, secret, i)))
  }

  function VectorScramble(acc: Acc, secret: seq<Byte>): Acc {
    seq(8, i requires 0 <= i < 8 => SplitProduct(ScrambleKey(acc, secret, i)))
  }

  lemma ProductAgrees(x: Word)
    ensures FullProduct(x) == SplitProduct(x)
  {
    hide Low32, High32, Shl32;
    var h, l := High32(x), Low32(x);
    Halves(x);
    Halves(h * PRIME32_1);
    var q, r := High32(h * PRIME32_1), Shl32(h * PRIME32_1);
    assert x * PRIME32_1 == l * PRIME32_1 + r + q * TWO64;
    DropMultiple(l * PRIME32_1 + r, q);
  }

  lemma DropMultiple(a: nat, q: nat)
    ensures (a + q * TWO64) % TWO64 == a % TWO64
  {
  }

  lemma ScrambleAgrees(acc: Acc, secret: seq<Byte>)
    ensures ScalarScramble(acc, secret) == VectorScramble(acc, secret)
  {
    hide ScrambleKey, FullProduct, SplitProduct;
    var s, v := ScalarScramble(acc, secret), VectorScramble(acc, secret);
    forall i | 0 <= i < 8
      ensures s[i] == v[i]
    {
      ProductAgrees(ScrambleKey(acc, secret, i));
    }
    assert s == v;
  }

  // ---------- Merge ----------

  /** XXH3_mul128_fold64. */
  function Fold(a: Word, b: Word): Word {
    var w := XxhMultiply(a, b);
    BothExact(a, b);
    WideFits(a, b);
    Xor(w.low, w.high)
  }

  lemma WideFits(a: Word, b: Word)
    ensures XxhMultiply(a, b).low < TWO64 && XxhMultiply(a, b).high < TWO64
  {
    LowHalves(CrossProducts(a, b));
  }

  /** XXH3_avalanche. */
  function Avalanche(h: Word): Word {
    XorShift(XorShift(h, 37) * 0x165667919E3779F9 % TWO64, 32)
  }

  function MergePair(acc: Acc, secret: seq<Byte>, i: nat): Word
    requires i < 4
  {
    Fold(Xor(acc[2 * i], Lane(secret, 2 * i)), Xor(acc[2 * i + 1], Lane(secret, 2 * i + 1)))
  }

  function SumFour(start: nat, p0: Word, p1: Word, p2: Word, p3: Word): Word {
    Add64(Add64(Add64(Add64(Wrap64(start), p0), p1), p2), p3)
  }

  /** XXH3_mergeAccs. */
  function Merge(acc: Acc, secret: seq<Byte>, start: nat): Word {
    Avalanche(SumFour(start, MergePair(acc, secret, 0), MergePair(acc, secret, 1),
                      MergePair(acc, secret, 2), MergePair(acc, secret, 3)))
  }

  // ---------- The two kernels ----------

  const INIT_ACC: Acc :=
    [0xC2B2AE3D, 0x9E3779B185EBCA87, 0xC2B2AE3D27D4EB4F, 0x165667B19E3779F9,
     0x85EBCA77C2B2AE63, 0x85EBCA77, 0x27D4EB2F165667C5, 0x9E3779B1]

  type ShortHash = (seq<Byte>, seq<Byte>, nat) -> Word

  function ScalarKernel(short: ShortHash, defaultSecret: seq<Byte>): Xxh3.Kernel<Acc, Word> {
    Xxh3.Kernel(INIT_ACC, ScalarAccumulate, ScalarScramble, Merge, short, defaultSecret)
  }

  function VectorKernel(short: ShortHash, defaultSecret: seq<Byte>): Xxh3.Kernel<Acc, Word> {
    Xxh3.Kernel(INIT_ACC, VectorAccumulate, VectorScramble, Merge, short, defaultSecret)
  }

  /** Two kernels that agree on every stripe and every scramble. */
  ghost predicate Agree<A(!new), H(!new)>(k1: Xxh3.Kernel<A, H>, k2: Xxh3.Kernel<A, H>) {
    && k1.init == k2.init && k1.defaultSecret == k2.defaultSecret
    && k1.merge == k2.merge && k1.short == k2.short
    && (forall a, input, secret :: k1.accumulate(a, input, secret) == k2.accumulate(a, input, secret))
    && (forall a, secret :: k1.scramble(a, secret) == k2.scramble(a, secret))
  }

  lemma {:induction false} AbsorbAgrees<A(!new), H(!new)>(k1: Xxh3.Kernel<A, H>, k2: Xxh3.Kernel<A, H>, secret: seq<Byte>,
                                      c: Xxh3.Cursor<A>, data: seq<Byte>)
    requires Agree(k1, k2) && |secret| >= Xxh3.SECRET_MIN && c.pos < Xxh3.PerBlock(secret)
    ensures Xxh3.Absorb(k1, secret, c, data) == Xxh3.Absorb(k2, secret, c, data)
    decreases |data|
  {
    if |data| >= Xxh3.STRIPE {
      assert Xxh3.Step(k1, secret, c, data[..Xxh3.STRIPE]) == Xxh3.Step(k2, secret, c, data[..Xxh3.STRIPE]);
      AbsorbAgrees(k1, k2, secret, Xxh3.Step(k1, secret, c, data[..Xxh3.STRIPE]), data[Xxh3.STRIPE..]);
    }
  }

  lemma OneShotAgrees<A(!new), H(!new)>(k1: Xxh3.Kernel<A, H>, k2: Xxh3.Kernel<A, H>, mode: Xxh3.Mode, data: seq<Byte>)
    requires Agree(k1, k2) && Xxh3.KernelOk(k1) && mode.Valid()
    ensures Xxh3.OneShot(k1, mode, data) == Xxh3.OneShot(k2, mode, data)
  {
    hide Xxh3.Absorb, Xxh3.DeriveSecret, Xxh3.MergeStart;
    if |data| > Xxh3.MIDSIZE_MAX {
      AbsorbAgrees(k1, k2, Xxh3.LongSecret(k1, mode), Xxh3.Cursor(k1.init, 0),
                   data[..(|data| - 1) / Xxh3.STRIPE * Xxh3.STRIPE]);
    }
  }

  /** For any number of stripes and blocks and all four variants, the build with AVX2 hashes like the scalar one. */
  lemma VectorBuildAgrees(short: ShortHash, defaultSecret: seq<Byte>, mode: Xxh3.Mode, data: seq<Byte>)
    requires |defaultSecret| == Xxh3.SECRET_DEFAULT && mode.Valid()
    ensures Xxh3.OneShot(VectorKernel(short, defaultSecret), mode, data)
         == Xxh3.OneShot(ScalarKernel(short, defaultSecret), mode, data)
  {
    hide ScalarAccumulate, VectorAccumulate, ScalarScramble, VectorScramble, Merge, Xxh3.OneShot;
    var k1, k2 := VectorKernel(short, defaultSecret), ScalarKernel(short, defaultSecret);
    forall a, input, secret
      ensures k1.accumulate(a, input, secret) == k2.accumulate(a, input, secret)
    {
      AccumulateAgrees(a, input, secret);
    }
    forall a, secret
      ensures k1.scramble(a, secret) == k2.scramble(a, secret)
    {
      ScrambleAgrees(a, secret);
    }
    OneShotAgrees(k1, k2, mode, data);
  }
}
