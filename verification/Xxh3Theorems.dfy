/** Every way of cutting an input into updates, after any earlier use of the state, gives the one-shot hash. */
module Xxh3Theorems {
  import opened Words
  import opened Xxh3
  import opened Xxh3Loops
  import opened Xxh3Stream

  /** The public one-shot functions: XXH3_64bits and its three variants. */
  method HashOneShot<A, H>(k: Kernel<A, H>, mode: Mode, data: seq<Byte>) returns (h: H)
    requires KernelOk(k) && mode.Valid()
    ensures h == OneShot(k, mode, data)
  {
    hide LongHash, DeriveSecret;
    match mode {
      case Plain =>
        if |data| <= MIDSIZE_MAX { return k.short(data, k.defaultSecret, 0); }
        h := HashLong(k, data, k.defaultSecret);
      case WithSecret(s) =>
        if |data| <= MIDSIZE_MAX { return k.short(data, s, 0); }
        h := HashLong(k, data, s);
      case WithSeed(seed) =>
        if |data| <= MIDSIZE_MAX { return k.short(data, k.defaultSecret, seed); }
        if seed == 0 {
          h := HashLong(k, data, k.defaultSecret);
        } else {
          var secret := new Byte[SECRET_DEFAULT];
          InitCustomSecret(secret, k.defaultSecret, seed);
          h := HashLong(k, data, secret[..]);
        }
      case WithSecretAndSeed(s, seed) =>
        if |data| <= MIDSIZE_MAX { return k.short(data, k.defaultSecret, seed); }
        h := HashLong(k, data, s);
    }
  }

  /** The reset that belongs to `mode`. */
  method ResetAs<A, H>(st: State<A, H>, mode: Mode)
    requires st.Valid() && mode.Valid()
    requires mode.WithSecret? || mode.WithSecretAndSeed? ==> |mode.secret| < TWO64
    modifies st, st.customSecret
    ensures st.Represents(mode, [])
  {
    hide DeriveSecret, Absorb;
    match mode {
      case Plain => st.Reset();
      case WithSecret(s) => var ok := st.ResetWithSecret(Some(s), |s|);
      case WithSeed(seed) => st.ResetWithSeed(seed);
      case WithSecretAndSeed(s, seed) => var ok := st.ResetWithSecretAndSeed(Some(s), |s|, seed);
    }
  }

  /**
   Streaming equals one-shot. The state may have any history of resets, updates and digests: it only
   has to be valid, which every operation keeps, so a cached secret never changes the result.
   */
  method HashChunks<A, H>(st: State<A, H>, mode: Mode, chunks: seq<Option<seq<Byte>>>) returns (h: H)
    requires st.Valid() && mode.Valid() && |Flatten(chunks)| < TWO64
    requires mode.WithSecret? || mode.WithSecretAndSeed? ==> |mode.secret| < TWO64
    modifies st, st.customSecret, st.buffer
    ensures st.Represents(mode, Flatten(chunks))
    ensures h == OneShot(st.k, mode, Flatten(chunks))
  {
    hide DeriveSecret, Absorb, OneShot, Flatten, State.Represents;
    ResetAs(st, mode);
    var i := 0;
    FlattenNone(chunks);
    while i < |chunks|
      invariant i <= |chunks| && st.Represents(mode, Flatten(chunks[..i]))
    {
      FlattenStep(chunks, i);
      st.Update(chunks[i], mode, Flatten(chunks[..i]));
      i := i + 1;
    }
    assert chunks[..i] == chunks;
    h := st.Digest(mode, Flatten(chunks));
  }

  /** Both imperative programs side by side, on any two cuts of the same input. */
  method StreamsAgree<A, H>(k: Kernel<A, H>, mode: Mode, cut1: seq<Option<seq<Byte>>>, cut2: seq<Option<seq<Byte>>>)
    returns (streamed1: H, streamed2: H, oneShot: H)
    requires KernelOk(k) && mode.Valid() && |Flatten(cut1)| < TWO64 && Flatten(cut1) == Flatten(cut2)
    requires mode.WithSecret? || mode.WithSecretAndSeed? ==> |mode.secret| < TWO64
    ensures streamed1 == streamed2 == oneShot
  {
    hide OneShot;
    var st := new State(k);
    streamed1 := HashChunks(st, mode, cut1);
    streamed2 := HashChunks(st, mode, cut2);
    oneShot := HashOneShot(k, mode, Flatten(cut1));
  }
}
