/** The byte-order macros of types.h that the arithmetic mutations use. */
module HavocWords {
  import opened Words

  // ---------- Little- and big-endian readings of a sequence ----------

  function Little16(b0: Byte, b1: Byte): bv16 {
    (b1 as bv16 << 8) | b0 as bv16
  }

  function Big16(b0: Byte, b1: Byte): bv16 {
    (b0 as bv16 << 8) | b1 as bv16
  }

  function Little32(b0: Byte, b1: Byte, b2: Byte, b3: Byte): bv32 {
    (b3 as bv32 << 24) | (b2 as bv32 << 16) | (b1 as bv32 << 8) | b0 as bv32
  }

  function Big32(b0: Byte, b1: Byte, b2: Byte, b3: Byte): bv32 {
    (b0 as bv32 << 24) | (b1 as bv32 << 16) | (b2 as bv32 << 8) | b3 as bv32
  }

  function Lo(x: bv16): Byte {
    (x & 0xff) as bv8
  }

  function Hi(x: bv16): Byte {
    ((x >> 8) & 0xff) as bv8
  }

  function B0(x: bv32): Byte {
    (x & 0xff) as bv8
  }

  function B1(x: bv32): Byte {
    ((x >> 8) & 0xff) as bv8
  }

  function B2(x: bv32): Byte {
    ((x >> 16) & 0xff) as bv8
  }

  function B3(x: bv32): Byte {
    ((x >> 24) & 0xff) as bv8
  }

  /** The bytes that INSERT16 and INSERT32 store. */
  function LittleBytes16(x: bv16): (s: seq<Byte>)
    ensures |s| == 2
  {
    [Lo(x), Hi(x)]
  }

  function BigBytes16(x: bv16): (s: seq<Byte>)
    ensures |s| == 2
  {
    [Hi(x), Lo(x)]
  }

  function LittleBytes32(x: bv32): (s: seq<Byte>)
    ensures |s| == 4
  {
    [B0(x), B1(x), B2(x), B3(x)]
  }

  function BigBytes32(x: bv32): (s: seq<Byte>)
    ensures |s| == 4
  {
    [B3(x), B2(x), B1(x), B0(x)]
  }

  // ---------- The macros ----------

  function Swap16(x: bv16): bv16 {
    (x << 8) | (x >> 8)
  }

  function Swap32(x: bv32): bv32 {
    (x << 24) | (x >> 24) | ((x << 8) & 0x00FF0000) | ((x >> 8) & 0x0000FF00)
  }

  lemma SwappedBytes16(x: bv16)
    ensures Lo(Swap16(x)) == Hi(x) && Hi(Swap16(x)) == Lo(x)
  {
  }

  lemma SwappedLow32(x: bv32)
    ensures B0(Swap32(x)) == B3(x) && B1(Swap32(x)) == B2(x)
  {
  }

  lemma SwappedHigh32(x: bv32)
    ensures B2(Swap32(x)) == B1(x) && B3(Swap32(x)) == B0(x)
  {
  }

  /** Storing a swapped word stores it big-endian. */
  lemma SwapStoresBig(x: bv16, y: bv32)
    ensures LittleBytes16(Swap16(x)) == BigBytes16(x)
    ensures LittleBytes32(Swap32(y)) == BigBytes32(y)
  {
    hide Lo, Hi, B0, B1, B2, B3, Swap16, Swap32;
    SwappedBytes16(x);
    SwappedLow32(y);
    SwappedHigh32(y);
  }

  /** Swapping what was read little-endian is reading big-endian. */
  lemma SwapReadsBig(b0: Byte, b1: Byte, b2: Byte, b3: Byte)
    ensures Swap16(Little16(b0, b1)) == Big16(b0, b1)
    ensures Swap32(Little32(b0, b1, b2, b3)) == Big32(b0, b1, b2, b3)
  {
  }

  lemma SwapTwice(x: bv32)
    ensures Swap32(Swap32(x)) == x
  {
  }

  // ---------- MUT_ARITH32BE ----------

  /** What the code computes: both swaps are outside the addition and cancel. */
  function Arith32BeCode(x: bv32, item: bv32): bv32 {
    Swap32(Swap32(x + item))
  }

  /** The big-endian addition that the comment in the code announces, as the word that is stored. */
  function Arith32BeIntended(x: bv32, item: bv32): bv32 {
    Swap32(Swap32(x) + item)
  }

  /** The code adds little-endian. */
  lemma Arith32BeIsLittle(x: bv32, item: bv32)
    ensures Arith32BeCode(x, item) == x + item
  {
    hide Swap32;
    SwapTwice(x + item);
  }

  /** An input on which the difference shows: 00 00 00 00 plus one gives 01 00 00 00 instead of 00 00 00 01. */
  lemma Arith32BeDiffers()
    ensures LittleBytes32(Arith32BeCode(0, 1)) == [1, 0, 0, 0]
    ensures LittleBytes32(Arith32BeIntended(0, 1)) == [0, 0, 0, 1]
  {
    assert Arith32BeCode(0, 1) == 1 && Arith32BeIntended(0, 1) == 0x01000000;
  }

  /** For the increments in use, the code adds big-endian exactly when it adds one to four bytes 0xff. */
  lemma Arith32BeRightIff(x: bv32, item: bv32)
    requires 1 <= item <= 35
    ensures Arith32BeCode(x, item) == Arith32BeIntended(x, item) <==> item == 1 && x == 0xFFFF_FFFF
  {
    hide Arith32BeCode;
    Arith32BeIsLittle(x, item);
    assert x + item == Swap32(Swap32(x) + item) <==> item == 1 && x == 0xFFFF_FFFF;
  }
}
