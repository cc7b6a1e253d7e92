/**
 XXH3, 64-bit: the one-shot long hash and the reset/update/digest state machine.

 The stripe kernel (accumulate, scramble, merge) and the hash of inputs up to 240 bytes are
 parameters, so every theorem holds for each of them; module `Xxh3Lanes` supplies kernels.
 */
module Xxh3 {
  import opened Words

  const STRIPE := 64
  const CONSUME_RATE := 8
  const SECRET_MIN := 136
  const SECRET_DEFAULT := 192
  const MIDSIZE_MAX := 240
  const BUFFER := 256
  const LASTACC_START := 7
  const MERGEACCS_START := 11
  const PRIME64_1: nat := 0x9E3779B185EBCA87

  /** The parts of XXH3 that the buffering does not look into. */
  datatype Kernel<!A, !H> = Kernel(
    init: A,
    accumulate: (A, seq<Byte>, seq<Byte>) -> A,
    scramble: (A, seq<Byte>) -> A,
    merge: (A, seq<Byte>, nat) -> H,
    short: (seq<Byte>, seq<Byte>, nat) -> H,
    defaultSecret: seq<Byte>)

  // ---------- Specification: one stripe at a time ----------

  /** Accumulators plus the number of stripes taken in the current block. */
  datatype Cursor<A> = Cursor(acc: A, pos: nat)

  function PerBlock(secret: seq<Byte>): (n: nat)
    requires |secret| >= SECRET_MIN
    ensures n >= 9 && CONSUME_RATE * n + STRIPE <= |secret|
  {
    (|secret| - STRIPE) / CONSUME_RATE
  }

  /** One stripe; the last stripe of a block is followed by a scramble. */
  function Step<A, H>(k: Kernel<A, H>, secret: seq<Byte>, c: Cursor<A>, stripe: seq<Byte>): (c': Cursor<A>)
    requires |secret| >= SECRET_MIN && c.pos < PerBlock(secret)
    ensures c'.pos < PerBlock(secret)
  {
    var acc := k.accumulate(c.acc, stripe, secret[CONSUME_RATE * c.pos..CONSUME_RATE * c.pos + STRIPE]);
    if c.pos + 1 == PerBlock(secret)
    then Cursor(k.scramble(acc, secret[|secret| - STRIPE..]), 0)
    else Cursor(acc, c.pos + 1)
  }

  /** All whole stripes of `data`, in order. */
  function Absorb<A, H>(k: Kernel<A, H>, secret: seq<Byte>, c: Cursor<A>, data: seq<Byte>): (c': Cursor<A>)
    requires |secret| >= SECRET_MIN && c.pos < PerBlock(secret)
    ensures c'.pos < PerBlock(secret)
    decreases |data|
  {
    if |data| < STRIPE then c else Absorb(k, secret, Step(k, secret, c, data[..STRIPE]), data[STRIPE..])
  }

  /** The 64-bit product with which the merge starts. */
  function MergeStart(len: nat): nat {
    Wrap64(len * PRIME64_1)
  }

  /**
   The hash of an input of more than 240 bytes: every stripe that starts at least one byte before
   the end, then the last 64 bytes again under a different part of the secret.
   */
  function LongHash<A, H>(k: Kernel<A, H>, secret: seq<Byte>, data: seq<Byte>): H
    requires |secret| >= SECRET_MIN && |data| >= STRIPE
  {
    var c := Absorb(k, secret, Cursor(k.init, 0), data[..(|data| - 1) / STRIPE * STRIPE]);
    Finish(k, secret, c.acc, data[|data| - STRIPE..], |data|)
  }

  function Finish<A, H>(k: Kernel<A, H>, secret: seq<Byte>, acc: A, last: seq<Byte>, len: nat): H
    requires |secret| >= SECRET_MIN
  {
    var from := |secret| - STRIPE - LASTACC_START;
    k.merge(k.accumulate(acc, last, secret[from..from + STRIPE]), secret[MERGEACCS_START..], MergeStart(len))
  }

  // ---------- Facts about absorbing ----------

  lemma {:induction false} AbsorbConcat<A, H>(k: Kernel<A, H>, secret: seq<Byte>, c: Cursor<A>, x: seq<Byte>, y: seq<Byte>)
    requires |secret| >= SECRET_MIN && c.pos < PerBlock(secret)
    requires |x| % STRIPE == 0
    ensures Absorb(k, secret, c, x + y) == Absorb(k, secret, Absorb(k, secret, c, x), y)
    decreases |x|
  {
    if x == [] {
      assert x + y == y;
    } else {
      assert (x + y)[..STRIPE] == x[..STRIPE];
      assert (x + y)[STRIPE..] == x[STRIPE..] + y;
      AbsorbConcat(k, secret, Step(k, secret, c, x[..STRIPE]), x[STRIPE..], y);
    }
  }

  /** XXH3_accumulate: stripes of one block, the secret advancing by 8, no scramble. */
  function Run<A, H>(k: Kernel<A, H>, secret: seq<Byte>, acc: A, pos: nat, data: seq<Byte>): A
    requires |secret| >= SECRET_MIN && |data| % STRIPE == 0
    requires pos + |data| / STRIPE <= PerBlock(secret)
    decreases |data|
  {
    if data == [] then acc
    else Run(k, secret,
             k.accumulate(acc, data[..STRIPE], secret[CONSUME_RATE * pos..CONSUME_RATE * pos + STRIPE]),
             pos + 1, data[STRIPE..])
  }

  lemma {:induction false} RunInsideBlock<A, H>(k: Kernel<A, H>, secret: seq<Byte>, acc: A, pos: nat, data: seq<Byte>)
    requires |secret| >= SECRET_MIN && |data| % STRIPE == 0
    requires pos + |data| / STRIPE < PerBlock(secret)
    ensures Absorb(k, secret, Cursor(acc, pos), data) == Cursor(Run(k, secret, acc, pos, data), pos + |data| / STRIPE)
    decreases |data|
  {
    if data != [] {
      var acc' := k.accumulate(acc, data[..STRIPE], secret[CONSUME_RATE * pos..CONSUME_RATE * pos + STRIPE]);
      RunInsideBlock(k, secret, acc', pos + 1, data[STRIPE..]);
    }
  }

  lemma {:induction false} RunToBlockEnd<A, H>(k: Kernel<A, H>, secret: seq<Byte>, acc: A, pos: nat, data: seq<Byte>)
    requires |secret| >= SECRET_MIN && |data| % STRIPE == 0 && data != []
    requires pos + |data| / STRIPE == PerBlock(secret)
    ensures Absorb(k, secret, Cursor(acc, pos), data)
         == Cursor(k.scramble(Run(k, secret, acc, pos, data), secret[|secret| - STRIPE..]), 0)
    decreases |data|
  {
    var acc' := k.accumulate(acc, data[..STRIPE], secret[CONSUME_RATE * pos..CONSUME_RATE * pos + STRIPE]);
    if |data| == STRIPE {
      assert data[STRIPE..] == [];
    } else {
      RunToBlockEnd(k, secret, acc', pos + 1, data[STRIPE..]);
    }
  }

  lemma {:induction false} RunSnoc<A, H>(k: Kernel<A, H>, secret: seq<Byte>, acc: A, pos: nat, x: seq<Byte>, y: seq<Byte>)
    requires |secret| >= SECRET_MIN && |x| % STRIPE == 0 && |y| == STRIPE
    requires pos + |x| / STRIPE + 1 <= PerBlock(secret)
    ensures (|x| + STRIPE) / STRIPE == |x| / STRIPE + 1
    ensures var p := CONSUME_RATE * (pos + |x| / STRIPE);
            Run(k, secret, acc, pos, x + y) == k.accumulate(Run(k, secret, acc, pos, x), y, secret[p..p + STRIPE])
    decreases |x|
  {
    if x == [] {
      assert x + y == y && y[..STRIPE] == y && y[STRIPE..] == [];
    } else {
      assert (x + y)[..STRIPE] == x[..STRIPE];
      assert (x + y)[STRIPE..] == x[STRIPE..] + y;
      var acc' := k.accumulate(acc, x[..STRIPE], secret[CONSUME_RATE * pos..CONSUME_RATE * pos + STRIPE]);
      RunSnoc(k, secret, acc', pos + 1, x[STRIPE..], y);
    }
  }

  // ---------- The seeded secret and the four public variants ----------

  /** The word at the front of `s`, shifted by `delta` modulo 2^64. */
  function ShiftWord(s: seq<Byte>, delta: nat): (w: seq<Byte>)
    requires |s| == 8
    ensures |w| == 8
  {
    LittleEndian(Wrap64(Value(s) + delta), 8)
  }

  /** XXH3_initCustomSecret: add the seed to the even words of the secret, subtract it from the odd ones. */
  function DeriveSecret(base: seq<Byte>, seed: nat): (s: seq<Byte>)
    requires |base| % 16 == 0 && seed < TWO64
    ensures |s| == |base|
  {
    if base == [] then [] else
    ShiftWord(base[..8], seed) + ShiftWord(base[8..16], TWO64 - seed) + DeriveSecret(base[16..], seed)
  }

  /** The word read back: the old one plus `delta`, modulo 2^64. */
  lemma ShiftValue(s: seq<Byte>, delta: nat)
    requires |s| == 8
    ensures Value(ShiftWord(s, delta)) == (Value(s) + delta) % TWO64
  {
    hide Value, LittleEndian, Power256;
    Powers256();
    ReadOfWrite(Wrap64(Value(s) + delta), 8);
  }

  /** Number `i` of the pairs of 64-bit words: the seed is added to the first and taken from the second. */
  ghost predicate PairShifted(base: seq<Byte>, secret: seq<Byte>, seed: nat, i: nat)
    requires |secret| == |base| && 16 * i + 16 <= |base|
  {
    && (Value(secret[16 * i..16 * i + 8]) - Value(base[16 * i..16 * i + 8])) % TWO64 == seed
    && (Value(base[16 * i + 8..16 * i + 16]) - Value(secret[16 * i + 8..16 * i + 16])) % TWO64 == seed
  }

  ghost predicate SeedShifted(base: seq<Byte>, secret: seq<Byte>, seed: nat) {
    |secret| == |base| && forall i: nat | 16 * i + 16 <= |base| :: PairShifted(base, secret, seed, i)
  }

  lemma FirstPair(base: seq<Byte>, seed: nat)
    requires |base| % 16 == 0 && |base| >= 16 && seed < TWO64
    ensures PairShifted(base, DeriveSecret(base, seed), seed, 0)
  {
    hide Value, ShiftWord, DeriveSecret;
    var s := DeriveSecret(base, seed);
    DeriveUnfold(base, seed);
    ShiftValue(base[..8], seed);
    ShiftValue(base[8..16], TWO64 - seed);
    EightBytesBound(base[..8]);
    EightBytesBound(base[8..16]);
    assert s[0..8] == ShiftWord(base[..8], seed) && s[8..16] == ShiftWord(base[8..16], TWO64 - seed);
    assert base[0..8] == base[..8];
    PlusSeed(Value(base[..8]), seed);
    MinusSeed(Value(base[8..16]), seed);
  }

  lemma PlusSeed(v: nat, seed: nat)
    requires v < TWO64 && seed < TWO64
    ensures ((v + seed) % TWO64 - v) % TWO64 == seed
  {
  }

  lemma MinusSeed(v: nat, seed: nat)
    requires v < TWO64 && seed < TWO64
    ensures (v - (v + (TWO64 - seed)) % TWO64) % TWO64 == seed
  {
  }

  /** The derived secret is the base with every pair of words shifted by the seed. */
  lemma {:induction false} DerivedPair(base: seq<Byte>, seed: nat, i: nat)
    requires |base| % 16 == 0 && seed < TWO64 && 16 * i + 16 <= |base|
    ensures PairShifted(base, DeriveSecret(base, seed), seed, i)
    decreases i
  {
    hide PairShifted, ShiftWord, DeriveSecret;
    if i == 0 {
      FirstPair(base, seed);
    } else {
      var s := DeriveSecret(base, seed);
      DerivedPair(base[16..], seed, i - 1);
      DeriveUnfold(base, seed);
      assert s[16..] == DeriveSecret(base[16..], seed);
      LaterPair(base, s, seed, i);
    }
  }

  lemma LaterPair(base: seq<Byte>, s: seq<Byte>, seed: nat, i: nat)
    requires |s| == |base| && i > 0 && 16 * i + 16 <= |base| && PairShifted(base[16..], s[16..], seed, i - 1)
    ensures PairShifted(base, s, seed, i)
  {
    hide Value;
    LaterSlices(base, i);
    LaterSlices(s, i);
  }

  lemma LaterSlices(s: seq<Byte>, i: nat)
    requires i > 0 && 16 * i + 16 <= |s|
    ensures s[16..][16 * (i - 1)..16 * (i - 1) + 8] == s[16 * i..16 * i + 8]
    ensures s[16..][16 * (i - 1) + 8..16 * (i - 1) + 16] == s[16 * i + 8..16 * i + 16]
  {
  }

  lemma DerivedShifted(base: seq<Byte>, seed: nat)
    requires |base| % 16 == 0 && seed < TWO64
    ensures SeedShifted(base, DeriveSecret(base, seed), seed)
  {
    hide PairShifted, DeriveSecret;
    forall i: nat | 16 * i + 16 <= |base|
      ensures PairShifted(base, DeriveSecret(base, seed), seed, i)
    {
      DerivedPair(base, seed, i);
    }
  }

  /** Different seeds derive different secrets. */
  lemma SeedsDiffer(base: seq<Byte>, seed1: nat, seed2: nat)
    requires |base| % 16 == 0 && |base| >= 16 && seed1 < TWO64 && seed2 < TWO64
    ensures DeriveSecret(base, seed1) == DeriveSecret(base, seed2) ==> seed1 == seed2
  {
    hide Value, DeriveSecret;
    FirstPair(base, seed1);
    FirstPair(base, seed2);
  }

  lemma ShiftByZero(s: seq<Byte>)
    requires |s| == 8
    ensures ShiftWord(s, 0) == s && ShiftWord(s, TWO64) == s
  {
    hide Value, LittleEndian;
    EightBytesBound(s);
    WriteOfRead(s);
  }

  lemma DeriveUnfold(base: seq<Byte>, seed: nat)
    requires |base| % 16 == 0 && |base| >= 16 && seed < TWO64
    ensures DeriveSecret(base, seed)
         == ShiftWord(base[..8], seed) + ShiftWord(base[8..16], TWO64 - seed) + DeriveSecret(base[16..], seed)
  {
  }

  /** Seed zero derives the default secret itself. */
  lemma {:induction false} DeriveWithZero(base: seq<Byte>)
    requires |base| % 16 == 0
    ensures DeriveSecret(base, 0) == base
  {
    hide ShiftWord, DeriveSecret;
    if base == [] {
      assert DeriveSecret(base, 0) == [];
    } else {
      var x, y, z := base[..8], base[8..16], base[16..];
      DeriveUnfold(base, 0);
      ShiftByZero(x);
      ShiftByZero(y);
      DeriveWithZero(z);
      SplitWords(base);
    }
  }

  lemma SplitWords(base: seq<Byte>)
    requires |base| >= 16
    ensures base == base[..8] + base[8..16] + base[16..]
  {
  }

  /** What the caller asked for at reset, or which one-shot function is called. */
  datatype Mode =
    | Plain
    | WithSecret(secret: seq<Byte>)
    | WithSeed(seed: nat)
    | WithSecretAndSeed(secret: seq<Byte>, seed: nat)
  {
    predicate Valid() {
      match this
      case Plain => true
      case WithSecret(s) => |s| >= SECRET_MIN
      case WithSeed(seed) => seed < TWO64
      case WithSecretAndSeed(s, seed) => |s| >= SECRET_MIN && seed < TWO64
    }
  }

  ghost predicate KernelOk<A, H>(k: Kernel<A, H>) {
    |k.defaultSecret| == SECRET_DEFAULT
  }

  /** The secret that long inputs use. */
  function LongSecret<A, H>(k: Kernel<A, H>, mode: Mode): (s: seq<Byte>)
    requires mode.Valid() && |k.defaultSecret| == SECRET_DEFAULT
    ensures |s| >= SECRET_MIN
  {
    match mode
    case Plain => k.defaultSecret
    case WithSecret(s) => s
    case WithSeed(seed) => if seed == 0 then k.defaultSecret else DeriveSecret(k.defaultSecret, seed)
    case WithSecretAndSeed(s, _) => s
  }

  /** The documented result of the four one-shot functions. */
  function OneShot<A, H>(k: Kernel<A, H>, mode: Mode, data: seq<Byte>): H
    requires mode.Valid() && |k.defaultSecret| == SECRET_DEFAULT
  {
    if |data| > MIDSIZE_MAX then LongHash(k, LongSecret(k, mode), data)
    else match mode
         case Plain => k.short(data, k.defaultSecret, 0)
         case WithSecret(s) => k.short(data, s, 0)
         case WithSeed(seed) => k.short(data, k.defaultSecret, seed)
         case WithSecretAndSeed(_, seed) => k.short(data, k.defaultSecret, seed)
  }

  /** A secret generated from the seed makes the combined variant the seeded one, for every seed and length. */
  lemma GeneratedSecretIsSeed<A, H>(k: Kernel<A, H>, seed: nat, data: seq<Byte>)
    requires seed < TWO64 && KernelOk(k)
    ensures OneShot(k, WithSecretAndSeed(DeriveSecret(k.defaultSecret, seed), seed), data)
         == OneShot(k, WithSeed(seed), data)
  {
    DeriveWithZero(k.defaultSecret);
  }
}
