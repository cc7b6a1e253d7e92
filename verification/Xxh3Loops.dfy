/** The XXH3 block loops: accumulate, consumeStripes and the one-shot long hash. */
module Xxh3Loops {
  import opened Words
  import opened Xxh3

  /** XXH3_accumulate on the stripes of `input`, starting at the secret offset of stripe `pos`. */
  method Accumulate<A, H>(k: Kernel<A, H>, acc0: A, input: seq<Byte>, secret: seq<Byte>, pos: nat, nbStripes: nat)
    returns (acc: A)
    requires |secret| >= SECRET_MIN && |input| == STRIPE * nbStripes
    requires pos + nbStripes <= PerBlock(secret)
    ensures acc == Run(k, secret, acc0, pos, input)
  {
    acc := acc0;
    var n := 0;
    assert input[..0] == [];
    while n < nbStripes
      invariant n <= nbStripes
      invariant acc == Run(k, secret, acc0, pos, input[..STRIPE * n])
    {
      var stripe := input[STRIPE * n..STRIPE * n + STRIPE];
      RunSnoc(k, secret, acc0, pos, input[..STRIPE * n], stripe);
      assert input[..STRIPE * n] + stripe == input[..STRIPE * (n + 1)];
      var p := CONSUME_RATE * (pos + n);
      acc := k.accumulate(acc, stripe, secret[p..p + STRIPE]);
      n := n + 1;
    }
    assert input[..STRIPE * nbStripes] == input;
  }

  lemma AbsorbNothing<A, H>(k: Kernel<A, H>, secret: seq<Byte>, c: Cursor<A>)
    requires |secret| >= SECRET_MIN && c.pos < PerBlock(secret)
    ensures Absorb(k, secret, c, []) == c
  {
  }

  /** A run that stays inside the block extends what was absorbed, and does not scramble. */
  lemma ExtendInside<A, H>(k: Kernel<A, H>, secret: seq<Byte>, c: Cursor<A>, done: seq<Byte>, acc: A, pos: nat, next: seq<Byte>)
    requires |secret| >= SECRET_MIN && c.pos < PerBlock(secret)
    requires |done| % STRIPE == 0 && |next| % STRIPE == 0
    requires Absorb(k, secret, c, done) == Cursor(acc, pos) && pos + |next| / STRIPE < PerBlock(secret)
    ensures Absorb(k, secret, c, done + next) == Cursor(Run(k, secret, acc, pos, next), pos + |next| / STRIPE)
  {
    AbsorbConcat(k, secret, c, done, next);
    RunInsideBlock(k, secret, acc, pos, next);
  }

  /** A run that reaches the block end extends what was absorbed, and scrambles. */
  lemma ExtendToEnd<A, H>(k: Kernel<A, H>, secret: seq<Byte>, c: Cursor<A>, done: seq<Byte>, acc: A, pos: nat, next: seq<Byte>)
    requires |secret| >= SECRET_MIN && c.pos < PerBlock(secret)
    requires |done| % STRIPE == 0 && |next| % STRIPE == 0 && next != []
    requires Absorb(k, secret, c, done) == Cursor(acc, pos) && pos + |next| / STRIPE == PerBlock(secret)
    ensures Absorb(k, secret, c, done + next)
         == Cursor(k.scramble(Run(k, secret, acc, pos, next), secret[|secret| - STRIPE..]), 0)
  {
    AbsorbConcat(k, secret, c, done, next);
    RunToBlockEnd(k, secret, acc, pos, next);
  }

  /**
   XXH3_consumeStripes: finish the open block, take whole blocks, start the next one.
   Whatever the cut, this is one stripe at a time; `used` is how far the input pointer moves.
   */
  method ConsumeStripes<A, H>(k: Kernel<A, H>, acc0: A, soFar0: nat, perBlock: nat, input: seq<Byte>,
                              nbStripes: nat, secret: seq<Byte>, secretLimit: nat)
    returns (acc: A, soFar: nat, used: nat)
    requires |secret| >= SECRET_MIN && perBlock == PerBlock(secret) && secretLimit == |secret| - STRIPE
    requires soFar0 < perBlock && STRIPE * nbStripes <= |input|
    ensures used == STRIPE * nbStripes
    ensures Cursor(acc, soFar) == Absorb(k, secret, Cursor(acc0, soFar0), input[..used])
  {
    hide Absorb, Run;
    ghost var c0 := Cursor(acc0, soFar0);
    acc, soFar, used := acc0, soFar0, 0;
    assert input[..used] == [];
    AbsorbNothing(k, secret, c0);
    var left: nat, at: nat := nbStripes, soFar0;
    if left >= perBlock - soFar {
      var thisIter := perBlock - soFar;
      var more := true;
      while more
        invariant left <= nbStripes && used == STRIPE * (nbStripes - left) && at + thisIter == perBlock
        invariant 0 < thisIter && at < perBlock
        invariant if more then left >= thisIter else at == 0 && left < perBlock
        invariant Absorb(k, secret, c0, input[..used]) == Cursor(acc, at)
        decreases more, left
      {
        var chunk := input[used..used + STRIPE * thisIter];
        assert input[..used] + chunk == input[..used + STRIPE * thisIter];
        ExtendToEnd(k, secret, c0, input[..used], acc, at, chunk);
        acc := Accumulate(k, acc, chunk, secret, at, thisIter);
        acc := k.scramble(acc, secret[secretLimit..]);
        used, left := used + STRIPE * thisIter, left - thisIter;
        thisIter, at := perBlock, 0;
        more := left >= perBlock;
      }
      soFar := 0;
    }
    if left > 0 {
      var chunk := input[used..used + STRIPE * left];
      assert input[..used] + chunk == input[..used + STRIPE * left];
      ExtendInside(k, secret, c0, input[..used], acc, at, chunk);
      acc := Accumulate(k, acc, chunk, secret, at, left);
      used, soFar := used + STRIPE * left, soFar + left;
    }
  }

  /** The length of `n` blocks, without a product of two variables. */
  ghost function Span(n: nat, blockLen: nat): nat {
    if n == 0 then 0 else Span(n - 1, blockLen) + blockLen
  }

  lemma {:induction false} SpanIsProduct(n: nat, blockLen: nat)
    ensures Span(n, blockLen) == n * blockLen
  {
    if n > 0 {
      SpanIsProduct(n - 1, blockLen);
      assert (n - 1) * blockLen + blockLen == n * blockLen;
    }
  }

  lemma {:induction false} SpanGrows(n: nat, nb: nat, blockLen: nat)
    requires n <= nb
    ensures Span(n, blockLen) <= Span(nb, blockLen)
  {
    if n < nb {
      SpanGrows(n, nb - 1, blockLen);
    }
  }

  method CountBlocks(m: nat, blockLen: nat) returns (nb: nat)
    requires blockLen > 0
    ensures Span(nb, blockLen) <= m < Span(nb, blockLen) + blockLen
  {
    nb := m / blockLen;
    SpanIsProduct(nb, blockLen);
  }

  /** The whole blocks of XXH3_hashLong_internal_loop; `at` is where the partial block starts. */
  method HashBlocks<A, H>(k: Kernel<A, H>, input: seq<Byte>, secret: seq<Byte>, perBlock: nat)
    returns (acc: A, at: nat)
    requires |secret| >= SECRET_MIN && perBlock == PerBlock(secret) && |input| > 0
    ensures at % STRIPE == 0 && at <= |input| - 1 < at + STRIPE * perBlock
    ensures Absorb(k, secret, Cursor(k.init, 0), input[..at]) == Cursor(acc, 0)
  {
    hide Absorb, Run;
    var blockLen := STRIPE * perBlock;
    var nbBlocks := CountBlocks(|input| - 1, blockLen);
    ghost var c0 := Cursor(k.init, 0);
    acc, at := k.init, 0;
    var n := 0;
    AbsorbNothing(k, secret, c0);
    assert input[..0] == [];
    while n < nbBlocks
      invariant n <= nbBlocks && at == Span(n, blockLen) && at % STRIPE == 0
      invariant at <= |input|
      invariant Absorb(k, secret, c0, input[..at]) == Cursor(acc, 0)
    {
      SpanGrows(n + 1, nbBlocks, blockLen);
      var block := input[at..at + blockLen];
      assert input[..at] + block == input[..at + blockLen];
      ExtendToEnd(k, secret, c0, input[..at], acc, 0, block);
      acc := Accumulate(k, acc, block, secret, 0, perBlock);
      acc := k.scramble(acc, secret[|secret| - STRIPE..]);
      n, at := n + 1, at + blockLen;
    }
  }

  /** XXH3_hashLong_64b_internal: whole blocks, the partial block, the last stripe, the merge. */
  method HashLong<A, H>(k: Kernel<A, H>, input: seq<Byte>, secret: seq<Byte>) returns (h: H)
    requires |secret| >= SECRET_MIN && |input| > MIDSIZE_MAX
    ensures h == LongHash(k, secret, input)
  {
    hide Absorb, Run;
    var len := |input|;
    var perBlock := (|secret| - STRIPE) / CONSUME_RATE;
    var acc, at := HashBlocks(k, input, secret, perBlock);
    var nbStripes := ((len - 1) - at) / STRIPE;
    assert at + STRIPE * nbStripes == (len - 1) / STRIPE * STRIPE;
    acc := HashPartial(k, acc, input, secret, at, nbStripes);
    var from := |secret| - STRIPE - LASTACC_START;
    acc := k.accumulate(acc, input[len - STRIPE..], secret[from..from + STRIPE]);
    h := k.merge(acc, secret[MERGEACCS_START..], MergeStart(len));
  }

  /** The stripes of the last partial block. */
  method HashPartial<A, H>(k: Kernel<A, H>, acc0: A, input: seq<Byte>, secret: seq<Byte>, at: nat, nbStripes: nat)
    returns (acc: A)
    requires |secret| >= SECRET_MIN && nbStripes < PerBlock(secret)
    requires at % STRIPE == 0 && at + STRIPE * nbStripes <= |input|
    requires Absorb(k, secret, Cursor(k.init, 0), input[..at]) == Cursor(acc0, 0)
    ensures acc == Absorb(k, secret, Cursor(k.init, 0), input[..at + STRIPE * nbStripes]).acc
  {
    hide Absorb, Run;
    var partial := input[at..at + STRIPE * nbStripes];
    assert input[..at] + partial == input[..at + STRIPE * nbStripes];
    ExtendInside(k, secret, Cursor(k.init, 0), input[..at], acc0, 0, partial);
    acc := Accumulate(k, acc0, partial, secret, 0, nbStripes);
  }
}
