/** Values of XXH32 and XXH64 that fix their constants, rounds and tails: empty, short and longer than a stripe. */
module XxhValues {
  import opened Words
  import opened StripeHash
  import opened Xxh32And64

  lemma EmptyInput()
    ensures Hash32(0, []) == 0x02CC5D05
  {
    assert Length32(0) == 0;
  }

  lemma EmptyInput64()
    ensures Hash64(0, []) == 0xEF46DB3751D8E999
  {
    assert Length64(0) == 0;
  }

  /** "abc". */
  lemma ShortInput()
    ensures Hash32(0, [97, 98, 99]) == 0x32D153FF
  {
    var t: seq<Byte> := [97, 98, 99];
    assert Length32(3) == 3;
    assert Rest(16, t) == t;
    assert t[1..] == [98, 99] && t[1..][1..] == [99] && t[1..][1..][1..] == [];
  }

  const STRIPE32: seq<Byte> := [1, 2, 3, 4, 5, 6, 7, 8, 9, 10, 11, 12, 13, 14, 15, 16]
  const TAIL32: seq<Byte> := [17, 18, 19, 20, 21]

  lemma MixedLanes32()
    ensures Mix32(Init32(0), STRIPE32) == Quad(0x56f04f51, 0xc2c38a70, 0xa61bb979, 0xb0266e49)
  {
    assert Init32(0) == Quad(0x24234428, 0x85ebca77, 0, 0x61c8864f);
    assert Read32(STRIPE32, 0) == 0x04030201 && Read32(STRIPE32, 4) == 0x08070605;
    assert Read32(STRIPE32, 8) == 0x0c0b0a09 && Read32(STRIPE32, 12) == 0x100f0e0d;
  }

  lemma Tail32()
    ensures Finalize32(0x84643212, TAIL32) == 0x848858ce
  {
    assert Read32(TAIL32, 0) == 0x14131211;
    assert TAIL32[4..] == [21] && TAIL32[4..][1..] == [];
    assert Finalize32(0xfaeaff4e, TAIL32[4..]) == Finalize32(0x7efe1680, []);
  }

  /** The bytes 1 to 21: one stripe, one word and one byte. */
  lemma LongInput()
    ensures Hash32(0, STRIPE32 + TAIL32) == 0x848858ce
  {
    hide Mix32, Init32, Finalize32, Absorb, Rest;
    MixedLanes32();
    Tail32();
    Stripe(KERNEL32, Init32(0), STRIPE32, TAIL32);
    Short(KERNEL32, Mix32(Init32(0), STRIPE32), TAIL32);
    assert Length32(21) == 21;
    assert Converge32(Quad(0x56f04f51, 0xc2c38a70, 0xa61bb979, 0xb0266e49)) == 0x846431fd;
  }

  const STRIPE64: seq<Byte> := [1, 2, 3, 4, 5, 6, 7, 8, 9, 10, 11, 12, 13, 14, 15, 16, 17, 18, 19, 20, 21, 22, 23, 24, 25, 26, 27, 28, 29, 30, 31, 32]

  lemma FirstWord64()
    ensures Read64(STRIPE64, 0) == 0x0807060504030201
  {
    assert Read32(STRIPE64, 0) == 0x04030201 && Read32(STRIPE64, 4) == 0x08070605;
  }

  lemma SecondWord64()
    ensures Read64(STRIPE64, 8) == 0x100f0e0d0c0b0a09
  {
    assert Read32(STRIPE64, 8) == 0x0c0b0a09 && Read32(STRIPE64, 12) == 0x100f0e0d;
  }

  lemma HighWords64()
    ensures Read64(STRIPE64, 16) == 0x1817161514131211 && Read64(STRIPE64, 24) == 0x201f1e1d1c1b1a19
  {
    assert Read32(STRIPE64, 16) == 0x14131211 && Read32(STRIPE64, 20) == 0x18171615;
    assert Read32(STRIPE64, 24) == 0x1c1b1a19 && Read32(STRIPE64, 28) == 0x201f1e1d;
  }

  /** The four lanes after the stripe of the bytes 1 to 32. */
  lemma MixedLanes64()
    ensures Mix64(Init64(0), STRIPE64)
         == Quad(0x84067dd7d1f3b82f, 0x53248dd1b14b7ef7, 0x5a7802885a29aed5, 0x299612823981759d)
  {
    assert Init64(0) == Quad(0x60ea27eeadc0b5d6, 0xc2b2ae3d27d4eb4f, 0, 0x61c8864e7a143579);
    hide Read64;
    FirstWord64();
    SecondWord64();
    HighWords64();
  }

  /** The four merge rounds. */
  lemma Merged64()
    ensures Converge64(Quad(0x84067dd7d1f3b82f, 0x53248dd1b14b7ef7, 0x5a7802885a29aed5, 0x299612823981759d))
         == 0xda9d5e4f6f766b39
  {
    assert MergeRound64(0x64855030bb08e807, 0x84067dd7d1f3b82f) == 0x9082247b9887558f;
    assert MergeRound64(0x9082247b9887558f, 0x53248dd1b14b7ef7) == 0xe1e28931b3ab79f6;
    assert MergeRound64(0xe1e28931b3ab79f6, 0x5a7802885a29aed5) == 0x2d3d1941d028f63d;
  }

  /** The last byte of a tail and the avalanche. */
  lemma TailOne()
    ensures Finalize64(0x0710dd6482d75783, [45]) == 0x0a556ee47d92b7be
  {
    var t: seq<Byte> := [45];
    assert t[1..] == [];
    assert Finalize64(0x0710dd6482d75783, t) == Finalize64(0xd2255989cbb71d1d, []);
  }
}
