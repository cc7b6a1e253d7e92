/** XXH32 and XXH64, one-shot and streaming, with their wrapping length counters. */
module Xxh32And64 {
  import opened Words
  import opened StripeHash

  datatype Quad<W> = Quad(v0: W, v1: W, v2: W, v3: W)

  // ---------- The arithmetic of XXH32 ----------

  const P32_1: bv32 := 0x9E3779B1
  const P32_2: bv32 := 0x85EBCA77
  const P32_3: bv32 := 0xC2B2AE3D
  const P32_4: bv32 := 0x27D4EB2F
  const P32_5: bv32 := 0x165667B1

  /** XXH_readLE32 at `i`. */
  function Read32(s: seq<Byte>, i: nat): bv32 {
    if i + 4 > |s| then 0
    else s[i] as bv32 | (s[i + 1] as bv32 << 8) | (s[i + 2] as bv32 << 16) | (s[i + 3] as bv32 << 24)
  }

  function Round32(acc: bv32, input: bv32): bv32 {
    (acc + input * P32_2).RotateLeft(13) * P32_1
  }

  function Mix32(v: Quad<bv32>, s: seq<Byte>): Quad<bv32> {
    Quad(Round32(v.v0, Read32(s, 0)), Round32(v.v1, Read32(s, 4)),
         Round32(v.v2, Read32(s, 8)), Round32(v.v3, Read32(s, 12)))
  }

  function Init32(seed: bv32): Quad<bv32> {
    Quad(seed + P32_1 + P32_2, seed + P32_2, seed + 0, seed - P32_1)
  }

  function Converge32(v: Quad<bv32>): bv32 {
    v.v0.RotateLeft(1) + v.v1.RotateLeft(7) + v.v2.RotateLeft(12) + v.v3.RotateLeft(18)
  }

  function Avalanche32(h0: bv32): bv32 {
    var h1 := (h0 ^ (h0 >> 15)) * P32_2;
    var h2 := (h1 ^ (h1 >> 13)) * P32_3;
    h2 ^ (h2 >> 16)
  }

  /** XXH32_finalize, rerolled form: words, then bytes, then the avalanche. */
  function Finalize32(h: bv32, tail: seq<Byte>): bv32
    decreases |tail|
  {
    if |tail| >= 4 then Finalize32((h + Read32(tail, 0) * P32_3).RotateLeft(17) * P32_4, tail[4..])
    else if |tail| > 0 then Finalize32((h + tail[0] as bv32 * P32_5).RotateLeft(11) * P32_1, tail[1..])
    else Avalanche32(h)
  }

  const KERNEL32 := Kernel(16, Mix32)

  /** A length as the 32-bit number that the hash adds. */
  function Length32(len: nat): bv32 {
    (len % TWO32) as bv32
  }

  /** The XXH32 hash, stated stripe by stripe. */
  function Hash32(seed: bv32, data: seq<Byte>): bv32 {
    var h := if |data| >= 16 then Converge32(Absorb(KERNEL32, Init32(seed), data)) else Small32(seed);
    AddLength32(h, |data|, Rest(16, data))
  }

  /** `h32 += len`, then the tail. */
  function AddLength32(h: bv32, len: nat, tail: seq<Byte>): bv32 {
    AddWord32(h, Length32(len), tail)
  }

  function AddWord32(h: bv32, len: bv32, tail: seq<Byte>): bv32 {
    Finalize32(h + len, tail)
  }

  /** The starting value of an input that is shorter than a stripe. */
  function Small32(seed: bv32): bv32 {
    seed + P32_5
  }

  // ---------- The arithmetic of XXH64 ----------

  const P64_1: bv64 := 0x9E3779B185EBCA87
  const P64_2: bv64 := 0xC2B2AE3D27D4EB4F
  const P64_3: bv64 := 0x165667B19E3779F9
  const P64_4: bv64 := 0x85EBCA77C2B2AE63
  const P64_5: bv64 := 0x27D4EB2F165667C5

  function Read64(s: seq<Byte>, i: nat): bv64 {
    Read32(s, i) as bv64 | (Read32(s, i + 4) as bv64 << 32)
  }

  function Round64(acc: bv64, input: bv64): bv64 {
    (acc + input * P64_2).RotateLeft(31) * P64_1
  }

  function Mix64(v: Quad<bv64>, s: seq<Byte>): Quad<bv64> {
    Quad(Round64(v.v0, Read64(s, 0)), Round64(v.v1, Read64(s, 8)),
         Round64(v.v2, Read64(s, 16)), Round64(v.v3, Read64(s, 24)))
  }

  function Init64(seed: bv64): Quad<bv64> {
    Quad(seed + P64_1 + P64_2, seed + P64_2, seed + 0, seed - P64_1)
  }

  function MergeRound64(acc: bv64, val: bv64): bv64 {
    (acc ^ Round64(0, val)) * P64_1 + P64_4
  }

  function Converge64(v: Quad<bv64>): bv64 {
    var h := v.v0.RotateLeft(1) + v.v1.RotateLeft(7) + v.v2.RotateLeft(12) + v.v3.RotateLeft(18);
    MergeRound64(MergeRound64(MergeRound64(MergeRound64(h, v.v0), v.v1), v.v2), v.v3)
  }

  function Avalanche64(h0: bv64): bv64 {
    var h1 := (h0 ^ (h0 >> 33)) * P64_2;
    var h2 := (h1 ^ (h1 >> 29)) * P64_3;
    h2 ^ (h2 >> 32)
  }

  /** XXH64_finalize: 8-byte words, one 4-byte word, bytes, the avalanche. */
  function Finalize64(h: bv64, tail: seq<Byte>): bv64
    decreases |tail|
  {
    if |tail| >= 8 then Finalize64((h ^ Round64(0, Read64(tail, 0))).RotateLeft(27) * P64_1 + P64_4, tail[8..])
    else if |tail| >= 4 then
      Finalize64((h ^ (Read32(tail, 0) as bv64 * P64_1)).RotateLeft(23) * P64_2 + P64_3, tail[4..])
    else if |tail| > 0 then Finalize64((h ^ (tail[0] as bv64 * P64_5)).RotateLeft(11) * P64_1, tail[1..])
    else Avalanche64(h)
  }

  const KERNEL64 := Kernel(32, Mix64)

  function Length64(len: nat): bv64 {
    Wrap64(len) as bv64
  }

  /** The XXH64 hash, stated stripe by stripe. */
  function Hash64(seed: bv64, data: seq<Byte>): bv64 {
    var h := if |data| >= 32 then Converge64(Absorb(KERNEL64, Init64(seed), data)) else Small64(seed);
    AddLength64(h, |data|, Rest(32, data))
  }

  /** `h64 += len`, then the tail. */
  function AddLength64(h: bv64, len: nat, tail: seq<Byte>): bv64 {
    Finalize64(h + Length64(len), tail)
  }

  /** The starting value of an input that is shorter than a stripe. */
  function Small64(seed: bv64): bv64 {
    seed + P64_5
  }

  // ---------- One-shot ----------

  /** XXH32_endian_align. */
  method OneShot32(input: seq<Byte>, seed: bv32) returns (h: bv32)
    ensures h == Hash32(seed, input)
  {
    hide AddLength32, Small32, Converge32, Mix32, Init32, Absorb, Rest;
    var p := 0;
    if |input| >= 16 {
      var v;
      v, p := MixAll(KERNEL32, Init32(seed), input);
      h := Converge32(v);
    } else {
      h := Small32(seed);
    }
    TailIsRest(16, input, p);
    h := AddLength32(h, |input|, input[p..p + |input| % 16]);
  }

  /** XXH64_endian_align. */
  method OneShot64(input: seq<Byte>, seed: bv64) returns (h: bv64)
    ensures h == Hash64(seed, input)
  {
    hide AddLength64, Small64, Converge64, Mix64, Init64, Absorb, Rest;
    var p := 0;
    if |input| >= 32 {
      var v;
      v, p := MixAll(KERNEL64, Init64(seed), input);
      h := Converge64(v);
    } else {
      h := Small64(seed);
    }
    TailIsRest(32, input, p);
    h := AddLength64(h, |input|, input[p..p + |input| % 32]);
  }

  /** Before the first stripe the third lane still is the seed. */
  lemma SeedInLane2(seed32: bv32, seed64: bv64)
    ensures Init32(seed32).v2 == seed32 && Init64(seed64).v2 == seed64
  {
  }

  // ---------- Streaming ----------

  /** XXH32_state_s. */
  class State32 {
    const lanes: Lanes<Quad<bv32>>
    var totalLen32: nat
    var largeLen: bool

    /** The counter wraps, the flag does not: it says whether the true total reached 16. */
    ghost predicate Represents(seed: bv32, data: seq<Byte>)
      reads this, lanes, lanes.mem
    {
      && lanes.k == KERNEL32
      && lanes.Represents(Init32(seed), data)
      && totalLen32 == |data| % TWO32
      && largeLen == (|data| >= 16)
    }

    constructor (seed: bv32)
      ensures Usable() && Represents(seed, []) && fresh(lanes) && fresh(lanes.mem)
    {
      lanes := new Lanes(KERNEL32, Init32(seed));
      totalLen32, largeLen := 0, false;
    }

    ghost predicate Usable() {
      lanes.k == KERNEL32 && lanes.Usable()
    }

    /** XXH32_reset of a state with any past. */
    method Reset(seed: bv32)
      requires Usable()
      modifies this, lanes, lanes.mem
      ensures Represents(seed, [])
    {
      hide Mix32, Init32, Absorb;
      lanes.Reset(Init32(seed));
      totalLen32, largeLen := 0, false;
    }

    /** XXH32_update; `None` is the NULL input. */
    method Update(input: Option<seq<Byte>>, ghost seed: bv32, ghost data: seq<Byte>)
      requires Represents(seed, data)
      modifies this, lanes, lanes.mem
      ensures Represents(seed, if input.None? then data else data + input.value)
    {
      hide Mix32, Init32, Absorb;
      if input.None? { return; }
      var bytes := input.value;
      totalLen32 := (totalLen32 + |bytes| % TWO32) % TWO32;
      FlagTracksTotal(|data|, |bytes|);
      largeLen := largeLen || |bytes| >= 16 || totalLen32 >= 16;
      lanes.Update(bytes, Init32(seed), data);
    }

    /** XXH32_digest. */
    method Digest(ghost seed: bv32, ghost data: seq<Byte>) returns (h: bv32)
      requires Represents(seed, data)
      ensures h == Hash32(seed, data)
    {
      hide AddLength32, Small32, Converge32, Mix32, Init32, Absorb, Rest;
      if largeLen {
        h := Converge32(lanes.v);
      } else {
        Short(KERNEL32, Init32(seed), data);
        SeedInLane2(seed, 0);
        h := Small32(lanes.v.v2);
      }
      WrappedLength32(h, |data|, Rest(16, data));
      h := AddLength32(h, totalLen32, lanes.mem[..lanes.memsize]);
    }
  }

  /** The wrapped counter adds the same 32-bit number as the true length. */
  lemma WrappedLength32(h: bv32, len: nat, tail: seq<Byte>)
    ensures AddLength32(h, len % TWO32, tail) == AddLength32(h, len, tail)
  {
    hide AddWord32;
    assert len % TWO32 % TWO32 == len % TWO32;
  }

  /** One update keeps counter and flag in step with the true total, however often the counter wraps. */
  lemma FlagTracksTotal(total: nat, len: nat)
    ensures (total % TWO32 + len % TWO32) % TWO32 == (total + len) % TWO32
    ensures (total >= 16 || len >= 16 || (total + len) % TWO32 >= 16) == (total + len >= 16)
  {
    SumWraps(total, len);
    if total < 16 && len < 16 {
      SmallWraps(total + len);
    }
  }

  lemma SumWraps(total: nat, len: nat)
    ensures (total % TWO32 + len % TWO32) % TWO32 == (total + len) % TWO32
  {
  }

  lemma SmallWraps(n: nat)
    requires n < 32
    ensures n % TWO32 == n
  {
  }

  /** XXH64_state_s. */
  class State64 {
    const lanes: Lanes<Quad<bv64>>
    var totalLen: nat

    ghost predicate Represents(seed: bv64, data: seq<Byte>)
      reads this, lanes, lanes.mem
    {
      && lanes.k == KERNEL64
      && lanes.Represents(Init64(seed), data)
      && totalLen == Wrap64(|data|)
    }

    constructor (seed: bv64)
      ensures Usable() && Represents(seed, []) && fresh(lanes) && fresh(lanes.mem)
    {
      lanes := new Lanes(KERNEL64, Init64(seed));
      totalLen := 0;
    }

    ghost predicate Usable() {
      lanes.k == KERNEL64 && lanes.Usable()
    }

    /** XXH64_reset of a state with any past. */
    method Reset(seed: bv64)
      requires Usable()
      modifies this, lanes, lanes.mem
      ensures Represents(seed, [])
    {
      hide Mix64, Init64, Absorb;
      lanes.Reset(Init64(seed));
      totalLen := 0;
    }

    method Update(input: Option<seq<Byte>>, ghost seed: bv64, ghost data: seq<Byte>)
      requires Represents(seed, data)
      modifies this, lanes, lanes.mem
      ensures Represents(seed, if input.None? then data else data + input.value)
    {
      hide Mix64, Init64, Absorb, Wrap64;
      if input.None? { return; }
      var bytes := input.value;
      WrapSum(|data|, |bytes|);
      totalLen := Wrap64(totalLen + |bytes|);
      lanes.Update(bytes, Init64(seed), data);
    }

    /** XXH64_digest; it takes both the branch and the tail length from the 64-bit counter. */
    method Digest(ghost seed: bv64, ghost data: seq<Byte>) returns (h: bv64)
      requires Represents(seed, data) && |data| < TWO64
      ensures h == Hash64(seed, data)
    {
      hide AddLength64, Small64, Converge64, Mix64, Init64, Absorb, Rest;
      RestLength(32, data);
      if totalLen >= 32 {
        h := Converge64(lanes.v);
      } else {
        Short(KERNEL64, Init64(seed), data);
        SeedInLane2(0, seed);
        h := Small64(lanes.v.v2);
      }
      h := AddLength64(h, totalLen, lanes.mem[..totalLen % 32]);
    }
  }

  /** The memory fill level is the true total modulo the stripe, also after the XXH32 counter wrapped. */
  lemma FillLevel(st: State32, seed: bv32, data: seq<Byte>)
    requires st.Represents(seed, data)
    ensures st.lanes.memsize == |data| % 16 && st.totalLen32 == |data| % TWO32
    ensures st.largeLen <==> |data| >= 16
  {
    RestLength(16, data);
  }

  // ---------- Streaming equals one-shot ----------

  /** Reset, any sequence of updates and digest, on a state with any past. */
  method HashChunks32(st: State32, seed: bv32, chunks: seq<Option<seq<Byte>>>) returns (h: bv32)
    requires st.Usable()
    modifies st, st.lanes, st.lanes.mem
    ensures st.Represents(seed, Flatten(chunks)) && h == Hash32(seed, Flatten(chunks))
  {
    hide Hash32, Flatten, State32.Represents;
    st.Reset(seed);
    var i := 0;
    FlattenNone(chunks);
    while i < |chunks|
      invariant i <= |chunks| && st.Represents(seed, Flatten(chunks[..i]))
    {
      FlattenStep(chunks, i);
      st.Update(chunks[i], seed, Flatten(chunks[..i]));
      i := i + 1;
    }
    assert chunks[..i] == chunks;
    h := st.Digest(seed, Flatten(chunks));
  }

  method Stream32(seed: bv32, chunks: seq<Option<seq<Byte>>>) returns (h: bv32)
    ensures h == Hash32(seed, Flatten(chunks))
  {
    hide Hash32;
    var st := new State32(seed);
    h := HashChunks32(st, seed, chunks);
  }

  /** Reset, any sequence of updates and digest, on a state with any past. */
  method HashChunks64(st: State64, seed: bv64, chunks: seq<Option<seq<Byte>>>) returns (h: bv64)
    requires st.Usable() && |Flatten(chunks)| < TWO64
    modifies st, st.lanes, st.lanes.mem
    ensures st.Represents(seed, Flatten(chunks)) && h == Hash64(seed, Flatten(chunks))
  {
    hide Hash64, Flatten, State64.Represents;
    st.Reset(seed);
    var i := 0;
    FlattenNone(chunks);
    while i < |chunks|
      invariant i <= |chunks| && st.Represents(seed, Flatten(chunks[..i]))
    {
      FlattenStep(chunks, i);
      st.Update(chunks[i], seed, Flatten(chunks[..i]));
      i := i + 1;
    }
    assert chunks[..i] == chunks;
    h := st.Digest(seed, Flatten(chunks));
  }

  method Stream64(seed: bv64, chunks: seq<Option<seq<Byte>>>) returns (h: bv64)
    requires |Flatten(chunks)| < TWO64
    ensures h == Hash64(seed, Flatten(chunks))
  {
    hide Hash64;
    var st := new State64(seed);
    h := HashChunks64(st, seed, chunks);
  }
}
