/** The XXH3 streaming state: resets with a cached seeded secret, update, digest. */
module Xxh3Stream {
  import opened Words
  import opened Xxh3
  import opened Xxh3Loops

  /** How the 256-byte buffer and its fill level represent the end of `data`. */
  ghost predicate Buffered(buf: seq<Byte>, fill: nat, data: seq<Byte>)
    requires |buf| == BUFFER
  {
    && fill <= BUFFER && fill <= |data|
    && (|data| - fill) % STRIPE == 0
    && (data != [] ==> fill > 0)
    && (fill < |data| ==> |data| > BUFFER)
    && buf[..fill] == data[|data| - fill..]
       // the kept end of the last stripe, from which a short remainder is completed
    && (fill < STRIPE && fill < |data| ==>
          |data| >= STRIPE && buf[BUFFER - (STRIPE - fill)..] == data[|data| - STRIPE..|data| - fill])
  }

  /** A remainder copied to the front of a buffer that ends with the last consumed stripe. */
  lemma BufferedAfterDrain(before: seq<Byte>, after: seq<Byte>, full: seq<Byte>, q: nat)
    requires |before| == BUFFER == |after| && q < |full| <= q + BUFFER && q % STRIPE == 0
    requires q > 0 ==> q >= STRIPE && |full| > BUFFER && before[BUFFER - STRIPE..] == full[q - STRIPE..q]
    requires after == full[q..] + before[|full| - q..]
    ensures Buffered(after, |full| - q, full)
  {
    var fill := |full| - q;
    if fill < STRIPE && q > 0 {
      assert after[BUFFER - (STRIPE - fill)..] == before[BUFFER - STRIPE..][fill..];
      assert full[q - STRIPE..q][fill..] == full[|full| - STRIPE..q];
    }
  }

  lemma PrefixKept(data: seq<Byte>, more: seq<Byte>, n: nat)
    requires n <= |data|
    ensures |data + more| == |data| + |more| && (data + more)[..n] == data[..n]
  {
  }

  /** More bytes appended to a buffer that has room for them. */
  lemma BufferedAfterFill(before: seq<Byte>, fill: nat, data: seq<Byte>, more: seq<Byte>)
    requires |before| == BUFFER && Buffered(before, fill, data) && fill + |more| <= BUFFER
    ensures Buffered(Overwrite(before, fill, more), fill + |more|, data + more)
  {
    var after := Overwrite(before, fill, more);
    var full, fill' := data + more, fill + |more|;
    assert after[..fill'] == before[..fill] + more == full[|full| - fill'..];
    if fill' < STRIPE && fill' < |full| {
      assert after[BUFFER - (STRIPE - fill')..] == before[BUFFER - (STRIPE - fill)..][|more|..];
      assert data[|data| - STRIPE..|data| - fill][|more|..] == full[|full| - STRIPE..|full| - fill'];
    }
  }

  /** A buffer completed from the input is the next 256 bytes of the whole. */
  lemma BufferCompleted(buf: seq<Byte>, data: seq<Byte>, q: nat, bytes: seq<Byte>, at: nat)
    requires |buf| == BUFFER && q <= |data| && at <= |bytes| && buf == data[q..] + bytes[..at]
    ensures (data + bytes)[..|data| + at] == data[..q] + buf
    ensures buf[BUFFER - STRIPE..] == (data + bytes)[|data| + at - STRIPE..|data| + at]
  {
    assert (data + bytes)[..|data| + at] == data + bytes[..at];
    assert (data + bytes)[q..|data| + at] == buf;
    assert (data + bytes)[|data| + at - STRIPE..|data| + at] == (data + bytes)[q..|data| + at][BUFFER - STRIPE..];
  }

  /** Where the stripes end that a digest consumes. */
  lemma StripesEnd(len: nat, fill: nat)
    requires 0 < fill <= len && (len - fill) % STRIPE == 0
    ensures len - fill + STRIPE * ((fill - 1) / STRIPE) == (len - 1) / STRIPE * STRIPE
  {
  }

  /** The last stripe of a digest, from a buffer that holds it. */
  lemma LastInBuffer(buf: seq<Byte>, fill: nat, data: seq<Byte>, used: nat)
    requires |buf| == BUFFER && Buffered(buf, fill, data) && STRIPE <= fill && used <= fill
    ensures data[..|data| - fill + used] == data[..|data| - fill] + buf[..used]
    ensures buf[fill - STRIPE..fill] == data[|data| - STRIPE..]
  {
    var q := |data| - fill;
    assert buf[..used] == buf[..fill][..used] == data[q..q + used];
    assert buf[fill - STRIPE..fill] == buf[..fill][fill - STRIPE..];
  }

  /** The last stripe of a digest, completed from the kept end of the one before. */
  lemma LastCaughtUp(buf: seq<Byte>, fill: nat, data: seq<Byte>)
    requires |buf| == BUFFER && Buffered(buf, fill, data) && fill < STRIPE && |data| > BUFFER
    ensures buf[BUFFER - (STRIPE - fill)..] + buf[..fill] == data[|data| - STRIPE..]
  {
    var q := |data| - fill;
    assert data[|data| - STRIPE..q] + data[q..] == data[|data| - STRIPE..];
  }

  lemma LongIsBuffered(buf: seq<Byte>, fill: nat, data: seq<Byte>)
    requires |buf| == BUFFER && Buffered(buf, fill, data) && |data| > MIDSIZE_MAX
    ensures 0 < fill <= BUFFER && fill <= |data| && (|data| - fill) % STRIPE == 0
    ensures fill < STRIPE ==> |data| > BUFFER
  {
  }

  lemma BufferedSize(buf: seq<Byte>, fill: nat, data: seq<Byte>)
    requires |buf| == BUFFER && Buffered(buf, fill, data)
    ensures fill <= BUFFER && fill <= |data| && (|data| - fill) % STRIPE == 0
  {
  }

  /** All stripes but what holds the last byte. */
  lemma WholeStripes(len: nat, n: nat)
    requires len > STRIPE && n == (len - 1) / STRIPE
    ensures STRIPE <= STRIPE * n < len <= STRIPE * n + STRIPE
  {
  }

  lemma RestConsumed(data: seq<Byte>, bytes: seq<Byte>, at: nat, used: nat)
    requires STRIPE <= used && at + used <= |bytes|
    ensures (data + bytes)[..|data| + at + used] == (data + bytes)[..|data| + at] + bytes[at..][..used]
    ensures (data + bytes)[|data| + at + used - STRIPE..|data| + at + used] == bytes[at + used - STRIPE..at + used]
  {
  }

  lemma ShortIsBuffered(buf: seq<Byte>, fill: nat, data: seq<Byte>)
    requires |buf| == BUFFER && Buffered(buf, fill, data) && |data| <= MIDSIZE_MAX
    ensures fill == |data| && buf[..fill] == data
  {
  }

  lemma SmallTotal(n: nat)
    requires n < TWO64
    ensures Wrap64(n) == n
  {
  }

  method WriteWords(dst: array<Byte>, at: nat, lo: seq<Byte>, hi: seq<Byte>)
    requires |lo| == 8 == |hi| && at + 16 <= dst.Length
    modifies dst
    ensures dst[..at + 16] == old(dst[..at]) + (lo + hi)
  {
    CopyInto(dst, at, lo);
    CopyInto(dst, at + 8, hi);
  }

  /** XXH3_initCustomSecret_scalar, writing the words in place. */
  method InitCustomSecret(dst: array<Byte>, base: seq<Byte>, seed: nat)
    requires |base| == SECRET_DEFAULT == dst.Length && seed < TWO64
    modifies dst
    ensures dst[..] == DeriveSecret(base, seed) && SeedShifted(base, dst[..], seed)
  {
    hide ShiftWord, DeriveSecret, SeedShifted;
    var at := 0;
    assert base[0..] == base;
    assert dst[..0] + DeriveSecret(base, seed) == DeriveSecret(base, seed);
    while at < SECRET_DEFAULT
      invariant at <= SECRET_DEFAULT && at % 16 == 0
      invariant dst[..at] + DeriveSecret(base[at..], seed) == DeriveSecret(base, seed)
    {
      ghost var rest, before := base[at..], dst[..at];
      DeriveUnfold(rest, seed);
      var lo := ShiftWord(base[at..at + 8], seed);
      var hi := ShiftWord(base[at + 8..at + 16], TWO64 - seed);
      assert rest[..8] == base[at..at + 8] && rest[8..16] == base[at + 8..at + 16];
      assert rest[16..] == base[at + 16..];
      WriteWords(dst, at, lo, hi);
      ghost var tail := DeriveSecret(base[at + 16..], seed);
      assert before + (lo + hi) + tail == before + (lo + hi + tail);
      at := at + 16;
    }
    assert dst[..at] == dst[..] && base[at..] == [];
    assert dst[..] + DeriveSecret([], seed) == dst[..];
    DerivedShifted(base, seed);
  }

  class State<A, H> {
    const k: Kernel<A, H>
    const customSecret: array<Byte>
    const buffer: array<Byte>
    var acc: A
    var bufferedSize: nat
    var useSeed: bool
    var nbStripesSoFar: nat
    var totalLen: nat
    var nbStripesPerBlock: nat
    var secretLimit: nat
    var seed: nat
    var extSecret: Option<seq<Byte>>

    /** Sizes, and the cache: a non-zero seed without external secret owns `customSecret`. */
    ghost predicate Valid()
      reads this`seed, this`extSecret, customSecret
    {
      && KernelOk(k) && buffer != customSecret
      && buffer.Length == BUFFER && customSecret.Length == SECRET_DEFAULT
      && seed < TWO64
      && (extSecret.None? && seed != 0 ==> customSecret[..] == DeriveSecret(k.defaultSecret, seed))
    }

    function Secret(): seq<Byte>
      reads this`extSecret, customSecret
    {
      if extSecret.None? then customSecret[..] else extSecret.value
    }

    /** The fields that a reset in `mode` leaves and updates do not touch. */
    ghost predicate Configured(mode: Mode)
      reads this`seed, this`extSecret, customSecret
      reads this`useSeed, this`secretLimit, this`nbStripesPerBlock
    {
      && Valid() && mode.Valid()
      && Secret() == LongSecret(k, mode)
      && secretLimit == |Secret()| - STRIPE && nbStripesPerBlock == PerBlock(Secret())
      && match mode
         case Plain => !useSeed
         case WithSecret(s) => !useSeed
         case WithSeed(sd) => useSeed == (sd != 0) && (sd != 0 ==> seed == sd)
         case WithSecretAndSeed(_, sd) => useSeed && seed == sd
    }

    /** The accumulators and the block position are those after all stripes of `consumed`. */
    ghost predicate Consumed(consumed: seq<Byte>)
      reads this`acc, this`nbStripesSoFar, this`extSecret, customSecret
    {
      && |Secret()| >= SECRET_MIN
      && Cursor(acc, nbStripesSoFar) == Absorb(k, Secret(), Cursor(k.init, 0), consumed)
    }

    /** The state represents the bytes `data` fed since a reset in `mode`. */
    ghost predicate Represents(mode: Mode, data: seq<Byte>)
      reads this, customSecret, buffer
    {
      && Configured(mode)
      && totalLen == Wrap64(|data|)
      && Buffered(buffer[..], bufferedSize, data)
      && Consumed(data[..|data| - bufferedSize])
    }

    /** Between the parts of an update: the first `q` bytes are consumed and the buffer is empty. */
    ghost predicate Drained(full: seq<Byte>, q: nat)
      reads this, customSecret, buffer
      requires buffer.Length == BUFFER && q <= |full|
    {
      && bufferedSize == 0 && q % STRIPE == 0
      && (q > 0 ==> q >= STRIPE && buffer[BUFFER - STRIPE..] == full[q - STRIPE..q])
      && Consumed(full[..q])
    }

    /** XXH3_createState. */
    constructor (kernel: Kernel<A, H>)
      requires KernelOk(kernel)
      ensures Valid() && k == kernel
      ensures fresh(buffer) && fresh(customSecret)
    {
      k := kernel;
      buffer := new Byte[BUFFER];
      customSecret := new Byte[SECRET_DEFAULT];
      acc := kernel.init;
      bufferedSize, useSeed, nbStripesSoFar, totalLen := 0, false, 0, 0;
      nbStripesPerBlock, secretLimit := 0, 0;
      seed, extSecret := 0, None;
    }

    /** XXH3_reset_internal; the size is a size_t, so the limit wraps for a size below 64. */
    method ResetInternal(newSeed: nat, secret: Option<seq<Byte>>, secretSize: nat)
      requires KernelOk(k) && newSeed < TWO64 && secretSize < TWO64
      modifies this
      ensures acc == k.init && bufferedSize == 0 && nbStripesSoFar == 0 && totalLen == 0
      ensures seed == newSeed && useSeed == (newSeed != 0) && extSecret == secret
      ensures secretLimit == (secretSize + TWO64 - STRIPE) % TWO64
      ensures nbStripesPerBlock == secretLimit / CONSUME_RATE
    {
      bufferedSize, useSeed, nbStripesSoFar, totalLen := 0, false, 0, 0;
      acc := k.init;
      seed := newSeed;
      useSeed := newSeed != 0;
      extSecret := secret;
      secretLimit := (secretSize + TWO64 - STRIPE) % TWO64;
      nbStripesPerBlock := secretLimit / CONSUME_RATE;
    }

    /** XXH3_64bits_reset. */
    method Reset()
      requires Valid()
      modifies this
      ensures Represents(Plain, [])
    {
      hide DeriveSecret;
      ResetInternal(0, Some(k.defaultSecret), SECRET_DEFAULT);
    }

    /** XXH3_64bits_reset_withSecret: even the rejected calls leave a valid cache. */
    method ResetWithSecret(secret: Option<seq<Byte>>, secretSize: nat) returns (ok: bool)
      requires Valid() && secretSize < TWO64
      requires secret.Some? ==> |secret.value| == secretSize
      modifies this
      ensures Valid()
      ensures ok == (secret.Some? && secretSize >= SECRET_MIN)
      ensures ok ==> Represents(WithSecret(secret.value), [])
    {
      hide DeriveSecret;
      ResetInternal(0, secret, secretSize);
      if secret.None? { return false; }
      if secretSize < SECRET_MIN { return false; }
      return true;
    }

    /** XXH3_64bits_reset_withSeed: derives the secret only when the cached one is not for this seed. */
    method ResetWithSeed(newSeed: nat)
      requires Valid() && newSeed < TWO64
      modifies this, customSecret
      ensures Represents(WithSeed(newSeed), [])
    {
      hide DeriveSecret;
      if newSeed == 0 {
        Reset();
        return;
      }
      if newSeed != seed || extSecret.Some? {
        InitCustomSecret(customSecret, k.defaultSecret, newSeed);
      }
      ResetInternal(newSeed, None, SECRET_DEFAULT);
    }

    /** XXH3_64bits_reset_withSecretandSeed; a rejected call changes nothing. */
    method ResetWithSecretAndSeed(secret: Option<seq<Byte>>, secretSize: nat, newSeed: nat) returns (ok: bool)
      requires Valid() && newSeed < TWO64 && secretSize < TWO64
      requires secret.Some? ==> |secret.value| == secretSize
      modifies this
      ensures Valid()
      ensures ok == (secret.Some? && secretSize >= SECRET_MIN)
      ensures ok ==> Represents(WithSecretAndSeed(secret.value, newSeed), [])
      ensures !ok ==> unchanged(this)
    {
      hide DeriveSecret;
      if secret.None? { return false; }
      if secretSize < SECRET_MIN { return false; }
      ResetInternal(newSeed, secret, secretSize);
      useSeed := true;
      return true;
    }

    /** XXH3_update; `None` is the NULL input. */
    method Update(input: Option<seq<Byte>>, ghost mode: Mode, ghost data: seq<Byte>)
      requires Represents(mode, data)
      modifies this, buffer
      ensures Represents(mode, if input.None? then data else data + input.value)
    {
      hide Absorb, DeriveSecret, PerBlock, Wrap64;
      if input.None? { return; }
      var bytes := input.value;
      WrapSum(|data|, |bytes|);
      totalLen := Wrap64(totalLen + |bytes|);
      if |bytes| <= BUFFER - bufferedSize {
        FillBuffer(bytes, mode, data);
        return;
      }
      var at := 0;
      assert |data + bytes| > BUFFER;
      if bufferedSize > 0 {
        at := CompleteBuffer(bytes, mode, data);
      } else {
        EmptyIsDrained(bytes, data);
      }
      if |bytes| - at > BUFFER {
        at := ConsumeRest(bytes, at, mode, data);
      }
      BufferRest(bytes, at, mode, data);
    }

    lemma EmptyIsDrained(bytes: seq<Byte>, data: seq<Byte>)
      requires buffer.Length == BUFFER && bufferedSize == 0
      requires Buffered(buffer[..], 0, data) && Consumed(data[..|data|])
      ensures Drained(data + bytes, |data|)
    {
      assert (data + bytes)[..|data|] == data[..|data|];
    }

    /** Buffer the remaining 1 to 256 bytes. */
    method BufferRest(bytes: seq<Byte>, at: nat, ghost mode: Mode, ghost data: seq<Byte>)
      requires at < |bytes| <= at + BUFFER && |data + bytes| > BUFFER
      requires Configured(mode) && Drained(data + bytes, |data| + at)
      modifies this`bufferedSize, buffer
      ensures Configured(mode) && Buffered(buffer[..], bufferedSize, data + bytes)
      ensures Consumed((data + bytes)[..|data + bytes| - bufferedSize])
    {
      Sizes(mode);
      hide Configured, Consumed, Buffered;
      ghost var full, before := data + bytes, buffer[..];
      CopyInto(buffer, 0, bytes[at..]);
      bufferedSize := |bytes| - at;
      assert full[|data| + at..] == bytes[at..];
      BufferedAfterDrain(before, buffer[..], full, |data| + at);
    }

    /** The small-input branch of XXH3_update. */
    method FillBuffer(bytes: seq<Byte>, ghost mode: Mode, ghost data: seq<Byte>)
      requires |bytes| <= BUFFER - bufferedSize
      requires Configured(mode) && Buffered(buffer[..], bufferedSize, data)
      requires Consumed(data[..|data| - bufferedSize])
      modifies this`bufferedSize, buffer
      ensures Configured(mode) && Buffered(buffer[..], bufferedSize, data + bytes)
      ensures Consumed((data + bytes)[..|data + bytes| - bufferedSize])
    {
      hide Configured, Consumed, Buffered, Overwrite, Absorb, DeriveSecret, PerBlock;
      Sizes(mode);
      ghost var before, fill := buffer[..], bufferedSize;
      BufferedSize(before, fill, data);
      BufferedAfterFill(before, fill, data, bytes);
      PrefixKept(data, bytes, |data| - fill);
      Put(buffer, bufferedSize, bytes);
      bufferedSize := bufferedSize + |bytes|;
    }

    lemma Sizes(mode: Mode)
      requires Configured(mode)
      ensures buffer != customSecret && buffer.Length == BUFFER && customSecret.Length == SECRET_DEFAULT
    {
    }

    /** Complete the internal buffer and consume its four stripes. */
    method CompleteBuffer(bytes: seq<Byte>, ghost mode: Mode, ghost data: seq<Byte>) returns (at: nat)
      requires 0 < bufferedSize && |bytes| > BUFFER - bufferedSize
      requires Configured(mode) && Buffered(buffer[..], bufferedSize, data)
      requires Consumed(data[..|data| - bufferedSize])
      modifies this`bufferedSize, this`acc, this`nbStripesSoFar, buffer
      ensures Configured(mode) && at == BUFFER - old(bufferedSize) && Drained(data + bytes, |data| + at)
    {
      hide Absorb, DeriveSecret, PerBlock;
      ghost var full, q := data + bytes, |data| - bufferedSize;
      at := BUFFER - bufferedSize;
      CopyInto(buffer, bufferedSize, bytes[..at]);
      assert buffer[..] == data[q..] + bytes[..at];
      BufferCompleted(buffer[..], data, q, bytes, at);
      hide Buffered;
      AbsorbConcat(k, Secret(), Cursor(k.init, 0), data[..q], buffer[..]);
      var a, n, used := ConsumeStripes(k, acc, nbStripesSoFar, nbStripesPerBlock, buffer[..],
                                       BUFFER / STRIPE, Secret(), secretLimit);
      assert buffer[..used] == buffer[..];
      acc, nbStripesSoFar, bufferedSize := a, n, 0;
    }

    /** Consume the input directly, all but its last 1 to 64 bytes, and keep the last stripe. */
    method ConsumeRest(bytes: seq<Byte>, at0: nat, ghost mode: Mode, ghost data: seq<Byte>) returns (at: nat)
      requires at0 + BUFFER < |bytes|
      requires Configured(mode) && Drained(data + bytes, |data| + at0)
      modifies this`acc, this`nbStripesSoFar, buffer
      ensures Configured(mode) && at0 < at < |bytes| <= at + STRIPE && Drained(data + bytes, |data| + at)
    {
      hide Absorb, DeriveSecret, PerBlock;
      Sizes(mode);
      ghost var full, q := data + bytes, |data| + at0;
      var nbStripes := (|bytes| - 1 - at0) / STRIPE;
      WholeStripes(|bytes| - at0, nbStripes);
      var a, n, used := ConsumeStripes(k, acc, nbStripesSoFar, nbStripesPerBlock, bytes[at0..],
                                       nbStripes, Secret(), secretLimit);
      RestConsumed(data, bytes, at0, used);
      AbsorbConcat(k, Secret(), Cursor(k.init, 0), full[..q], bytes[at0..][..used]);
      acc, nbStripesSoFar := a, n;
      at := at0 + used;
      assert Consumed(full[..q + used]);
      hide Configured, Consumed;
      CopyInto(buffer, BUFFER - STRIPE, bytes[at - STRIPE..at]);
    }

    /** XXH3_64bits_digest: the one-shot hash of everything fed, and the state stays usable. */
    method Digest(ghost mode: Mode, ghost data: seq<Byte>) returns (h: H)
      requires Represents(mode, data) && |data| < TWO64
      ensures h == OneShot(k, mode, data)
    {
      hide Absorb, DeriveSecret, PerBlock, MergeStart, Buffered;
      SmallTotal(|data|);
      if totalLen > MIDSIZE_MAX {
        var secret := Secret();
        var a, last := DigestLong(mode, data);
        var from := secretLimit - LASTACC_START;
        h := k.merge(k.accumulate(a, last, secret[from..from + STRIPE]), secret[MERGEACCS_START..],
                     MergeStart(totalLen));
      } else {
        h := DigestShort(mode, data);
      }
    }

    /** The short inputs never left the buffer. */
    method DigestShort(ghost mode: Mode, ghost data: seq<Byte>) returns (h: H)
      requires Represents(mode, data) && totalLen == |data| <= MIDSIZE_MAX
      ensures h == OneShot(k, mode, data)
    {
      ShortIsBuffered(buffer[..], bufferedSize, data);
      hide Absorb, DeriveSecret, PerBlock, Buffered, LongHash;
      var secret := Secret();
      assert buffer[..totalLen] == data;
      if useSeed {
        h := k.short(buffer[..totalLen], k.defaultSecret, seed);
      } else {
        assert secret[..secretLimit + STRIPE] == secret;
        h := k.short(buffer[..totalLen], secret[..secretLimit + STRIPE], 0);
      }
    }

    /** XXH3_digest_long up to the choice of the last stripe. */
    method DigestLong(ghost mode: Mode, ghost data: seq<Byte>) returns (a: A, last: seq<Byte>)
      requires Represents(mode, data) && |data| > MIDSIZE_MAX
      ensures last == data[|data| - STRIPE..]
      ensures a == Absorb(k, Secret(), Cursor(k.init, 0), data[..(|data| - 1) / STRIPE * STRIPE]).acc
    {
      a := acc;
      LongIsBuffered(buffer[..], bufferedSize, data);
      StripesEnd(|data|, bufferedSize);
      hide Absorb, DeriveSecret, PerBlock, Buffered;
      if bufferedSize >= STRIPE {
        a, last := DigestBuffered(mode, data);
      } else {
        var catchup := STRIPE - bufferedSize;
        LastCaughtUp(buffer[..], bufferedSize, data);
        last := buffer[BUFFER - catchup..] + buffer[..bufferedSize];
      }
    }

    /** The buffered stripes, on a copy of the accumulators. */
    method DigestBuffered(ghost mode: Mode, ghost data: seq<Byte>) returns (a: A, last: seq<Byte>)
      requires Represents(mode, data) && bufferedSize >= STRIPE
      ensures last == data[|data| - STRIPE..]
      ensures
        var end := |data| - bufferedSize + STRIPE * ((bufferedSize - 1) / STRIPE);
        end <= |data| && a == Absorb(k, Secret(), Cursor(k.init, 0), data[..end]).acc
    {
      hide Absorb, DeriveSecret, PerBlock;
      ghost var q := |data| - bufferedSize;
      var nbStripes := (bufferedSize - 1) / STRIPE;
      var n, used;
      a, n, used := ConsumeStripes(k, acc, nbStripesSoFar, nbStripesPerBlock, buffer[..], nbStripes,
                                   Secret(), secretLimit);
      LastInBuffer(buffer[..], bufferedSize, data, used);
      AbsorbConcat(k, Secret(), Cursor(k.init, 0), data[..q], buffer[..used]);
      last := buffer[bufferedSize - STRIPE..bufferedSize];
    }
  }
}
