/** The byte and word arithmetic of the mutations, and what it does to the numbers that the bytes spell. */
module HavocArith {
  import opened Words
  import opened HavocWords

  // ---------- The operations of the code ----------

  function Mask(bit: nat): Byte
    requires bit < 8
  {
    match bit
    case 0 => 1
    case 1 => 2
    case 2 => 4
    case 3 => 8
    case 4 => 16
    case 5 => 32
    case 6 => 64
    case 7 => 128
  }

  function Masked(b: Byte, mask: Byte): Byte {
    b ^ mask
  }

  function FlippedBit(b: Byte, bit: nat): Byte
    requires bit < 8
  {
    Masked(b, Mask(bit))
  }

  function Increment(b: Byte): Byte {
    b + 1
  }

  function Decrement(b: Byte): Byte {
    b - 1
  }

  function Plus8(x: Byte, y: Byte): Byte {
    x + y
  }

  function Less8(x: Byte, y: Byte): Byte {
    x - y
  }

  function Plus16(x: bv16, y: bv16): bv16 {
    x + y
  }

  function Less16(x: bv16, y: bv16): bv16 {
    x - y
  }

  function Plus32(x: bv32, y: bv32): bv32 {
    x + y
  }

  function Less32(x: bv32, y: bv32): bv32 {
    x - y
  }

  function Wide16(b: Byte): bv16 {
    b as bv16
  }

  function Wide32(b: Byte): bv32 {
    b as bv32
  }

  function Add8(b: Byte, delta: Octet, sub: bool): Byte {
    if sub then Less8(b, FromNum(delta)) else Plus8(b, FromNum(delta))
  }

  function Add16(x: bv16, delta: Octet, sub: bool): bv16 {
    if sub then Less16(x, Wide16(FromNum(delta))) else Plus16(x, Wide16(FromNum(delta)))
  }

  function Add32(x: bv32, delta: Octet, sub: bool): bv32 {
    if sub then Less32(x, Wide32(FromNum(delta))) else Plus32(x, Wide32(FromNum(delta)))
  }

  // ---------- Bits ----------

  function BitAt(x: Bits, k: nat): bool
    requires k < 8
  {
    match k
    case 0 => x.b0
    case 1 => x.b1
    case 2 => x.b2
    case 3 => x.b3
    case 4 => x.b4
    case 5 => x.b5
    case 6 => x.b6
    case 7 => x.b7
  }

  function BitsXor(x: Bits, y: Bits): Bits {
    Bits(x.b0 != y.b0, x.b1 != y.b1, x.b2 != y.b2, x.b3 != y.b3, x.b4 != y.b4, x.b5 != y.b5, x.b6 != y.b6, x.b7 != y.b7)
  }

  lemma XorBits(b: Byte, mask: Byte)
    ensures ByteBits(Masked(b, mask)) == BitsXor(ByteBits(b), ByteBits(mask))
  {
  }

  function OneBit(bit: nat): Bits {
    Bits(bit == 0, bit == 1, bit == 2, bit == 3, bit == 4, bit == 5, bit == 6, bit == 7)
  }

  lemma MaskIsBit(bit: nat)
    requires bit < 8
    ensures ByteBits(Mask(bit)) == OneBit(bit)
  {
  }

  /** A flip changes the named bit and no other. */
  lemma FlipChangesOne(b: Byte, bit: nat, k: nat)
    requires bit < 8 && k < 8
    ensures BitAt(ByteBits(FlippedBit(b, bit)), k) == (BitAt(ByteBits(b), k) != (k == bit))
  {
    hide ByteBits, Masked, Mask;
    XorBits(b, Mask(bit));
    MaskIsBit(bit);
  }

  /** The same mask twice restores the byte, and a mask other than 0 changes it. */
  lemma MaskTwice(b: Byte, mask: Byte)
    ensures Masked(Masked(b, mask), mask) == b && (Masked(b, mask) == b <==> mask == 0)
  {
  }

  lemma MaskNotZero(bit: nat)
    requires bit < 8
    ensures Mask(bit) != 0
  {
  }

  // ---------- One more ----------

  function Successor(x: Bits): Bits {
    Bits(!x.b0, x.b1 != x.b0, x.b2 != (x.b0 && x.b1), x.b3 != (x.b0 && x.b1 && x.b2),
         x.b4 != LowFull(x), x.b5 != (LowFull(x) && x.b4), x.b6 != (LowFull(x) && x.b4 && x.b5),
         x.b7 != (LowFull(x) && x.b4 && x.b5 && x.b6))
  }

  predicate LowFull(x: Bits) {
    x.b0 && x.b1 && x.b2 && x.b3
  }

  lemma NextBits(b: Byte)
    ensures ByteBits(Increment(b)) == Successor(ByteBits(b))
  {
  }

  function LowValue(x: Bits): nat {
    Push(x.b0, Push(x.b1, Push(x.b2, Push(x.b3, 0))))
  }

  lemma Nibbles(x: Bits)
    ensures BitValue(x) == LowValue(x) + 16 * HighValue(x)
  {
    hide HighValue;
  }

  lemma LowNext(x: Bits)
    ensures LowValue(Successor(x)) == (LowValue(x) + 1) % 16
    ensures LowFull(x) <==> LowValue(x) == 15
    ensures LowValue(x) < 16
  {
  }

  lemma HighNext(x: Bits)
    ensures HighValue(Successor(x)) == if LowFull(x) then (HighValue(x) + 1) % 16 else HighValue(x)
  {
  }

  lemma SuccessorValue(x: Bits)
    ensures BitValue(Successor(x)) == (BitValue(x) + 1) % 256
  {
    hide BitValue, LowValue, HighValue, Successor, LowFull;
    Nibbles(x);
    Nibbles(Successor(x));
    LowNext(x);
    HighNext(x);
  }

  /** b + 1 is one more, and 0 after 255. */
  lemma NumNext(b: Byte)
    ensures Num(Increment(b)) == (Num(b) + 1) % 256
  {
    hide BitValue, ByteBits, Successor, Increment;
    NextBits(b);
    SuccessorValue(ByteBits(b));
  }

  /** b - 1 is one less, and 255 before 0. */
  lemma NumPrevious(b: Byte)
    ensures Num(Decrement(b)) == (Num(b) + 255) % 256
  {
    hide Num, Increment, Decrement;
    NumNext(Decrement(b));
    BackAndForth(b);
  }

  lemma BackAndForth(b: Byte)
    ensures Increment(Decrement(b)) == b
  {
  }

  /** Inverting all bits is the distance to 255. */
  lemma Complement(b: Byte)
    ensures Num(Masked(b, 0xff)) == 255 - Num(b)
  {
    hide BitValue, ByteBits, Masked;
    XorBits(b, 0xff);
    AllSet();
    Inverted(ByteBits(b));
  }

  lemma AllSet()
    ensures ByteBits(0xff) == Bits(true, true, true, true, true, true, true, true)
  {
  }

  lemma Inverted(x: Bits)
    ensures BitValue(BitsXor(x, Bits(true, true, true, true, true, true, true, true))) == 255 - BitValue(x)
  {
    var y := BitsXor(x, Bits(true, true, true, true, true, true, true, true));
    Nibbles(x);
    Nibbles(y);
    hide BitValue;
    assert LowValue(y) == 15 - LowValue(x);
    assert HighValue(y) == 15 - HighValue(x);
  }

  lemma FromNumNext(d: nat)
    requires d < 255
    ensures FromNum(d + 1) == Increment(FromNum(d)) && FromNum(d) != 0xff
  {
    hide Num, FromNum, Increment;
    NumOfFromNum(d);
    NumNext(FromNum(d));
    FromNumOfNum(Increment(FromNum(d)));
    AllSet();
    assert Num(0xff) == 255 by { FullByte(); }
  }

  lemma FullByte()
    ensures Num(0xff) == 255 && Num(0) == 0
  {
  }

  // ---------- Sums ----------

  lemma {:induction false} PlusNumber8(b: Byte, d: Octet)
    ensures Num(Plus8(b, FromNum(d))) == (Num(b) + d) % 256
  {
    hide Num, FromNum, Increment;
    if d == 0 {
      ZeroByte();
      Zero8(b);
    } else {
      FromNumNext(d - 1);
      PlusNumber8(b, d - 1);
      Next8(b, FromNum(d - 1));
      NumNext(Plus8(b, FromNum(d - 1)));
    }
  }

  lemma ZeroByte()
    ensures FromNum(0) == 0
  {
    FullByte();
    hide Num, FromNum;
    FromNumOfNum(0);
  }

  lemma Zero8(b: Byte)
    ensures Plus8(b, 0) == b
  {
  }

  lemma Next8(x: Byte, y: Byte)
    ensures Plus8(x, Increment(y)) == Increment(Plus8(x, y))
  {
  }

  /** The number of a 16-bit word. */
  function Number16(x: bv16): (n: nat)
    ensures n < 0x1_0000
  {
    Num(Lo(x)) + 256 * Num(Hi(x))
  }

  lemma NextBytes16(x: bv16)
    ensures Lo(Plus16(x, 1)) == Increment(Lo(x))
    ensures Hi(Plus16(x, 1)) == if Lo(x) == 0xff then Increment(Hi(x)) else Hi(x)
  {
  }

  lemma FullIs255(b: Byte)
    ensures b == 0xff <==> Num(b) == 255
  {
    FullByte();
    hide Num, FromNum;
    FromNumOfNum(b);
    FromNumOfNum(0xff);
  }

  lemma Next16(x: bv16)
    ensures Number16(Plus16(x, 1)) == (Number16(x) + 1) % 0x1_0000
  {
    hide Num, Lo, Hi, Plus16, Increment;
    NextBytes16(x);
    NumNext(Lo(x));
    NumNext(Hi(x));
    FullIs255(Lo(x));
  }

  lemma WideNext16(x: bv16, b: Byte)
    requires b != 0xff
    ensures Plus16(x, Wide16(Increment(b))) == Plus16(Plus16(x, Wide16(b)), 1)
    ensures Plus16(x, Wide16(0)) == x
  {
  }

  lemma {:induction false} PlusNumber16(x: bv16, d: Octet)
    ensures Number16(Plus16(x, Wide16(FromNum(d)))) == (Number16(x) + d) % 0x1_0000
  {
    hide Num, FromNum, Increment, Number16, Plus16, Wide16;
    if d == 0 {
      ZeroByte();
      WideNext16(x, 0);
    } else {
      FromNumNext(d - 1);
      PlusNumber16(x, d - 1);
      WideNext16(x, FromNum(d - 1));
      Next16(Plus16(x, Wide16(FromNum(d - 1))));
    }
  }

  /** The number of a 32-bit word. */
  function Number32(x: bv32): (n: nat)
    ensures n < TWO32
  {
    Join4(Num(B0(x)), Num(B1(x)), Num(B2(x)), Num(B3(x)))
  }

  lemma NextLow32(x: bv32)
    ensures B0(Plus32(x, 1)) == Increment(B0(x))
    ensures B1(Plus32(x, 1)) == if B0(x) == 0xff then Increment(B1(x)) else B1(x)
  {
  }

  lemma NextHigh32(x: bv32)
    ensures B2(Plus32(x, 1)) == if B0(x) == 0xff && B1(x) == 0xff then Increment(B2(x)) else B2(x)
    ensures B3(Plus32(x, 1)) == if B0(x) == 0xff && B1(x) == 0xff && B2(x) == 0xff then Increment(B3(x)) else B3(x)
  {
  }

  function Join4(n0: nat, n1: nat, n2: nat, n3: nat): nat {
    n0 + 0x100 * n1 + 0x1_0000 * n2 + 0x100_0000 * n3
  }

  /** Counting one up with carries. */
  lemma Carries(n0: Octet, n1: Octet, n2: Octet, n3: Octet)
    ensures n0 < 255 ==> Join4(n0 + 1, n1, n2, n3) == Wrapped(Join4(n0, n1, n2, n3) + 1)
    ensures n0 == 255 && n1 < 255 ==> Join4(0, n1 + 1, n2, n3) == Wrapped(Join4(n0, n1, n2, n3) + 1)
    ensures n0 == n1 == 255 && n2 < 255 ==> Join4(0, 0, n2 + 1, n3) == Wrapped(Join4(n0, n1, n2, n3) + 1)
    ensures n0 == n1 == n2 == 255 ==> Join4(0, 0, 0, (n3 + 1) % 256) == Wrapped(Join4(n0, n1, n2, n3) + 1)
  {
    hide Wrapped;
    var j := Join4(n0, n1, n2, n3);
    assert j < TWO32;
    WrappedNext(j);
    if n0 == n1 == n2 == n3 == 255 {
      assert j == TWO32 - 1;
    } else {
      assert j < TWO32 - 1;
    }
  }

  function Wrapped(n: nat): nat {
    n % TWO32
  }

  lemma WrappedNext(j: nat)
    requires j < TWO32
    ensures Wrapped(j + 1) == if j == TWO32 - 1 then 0 else j + 1
  {
  }

  lemma Next32(x: bv32)
    ensures Number32(Plus32(x, 1)) == (Number32(x) + 1) % TWO32
  {
    hide Num, B0, B1, B2, B3, Plus32, Increment, Join4;
    NextLow32(x);
    NextHigh32(x);
    NumNext(B0(x));
    NumNext(B1(x));
    NumNext(B2(x));
    NumNext(B3(x));
    FullIs255(B0(x));
    FullIs255(B1(x));
    FullIs255(B2(x));
    Carries(Num(B0(x)), Num(B1(x)), Num(B2(x)), Num(B3(x)));
  }

  lemma WideNext32(x: bv32, b: Byte)
    requires b != 0xff
    ensures Plus32(x, Wide32(Increment(b))) == Plus32(Plus32(x, Wide32(b)), 1)
    ensures Plus32(x, Wide32(0)) == x
  {
  }

  lemma {:induction false} PlusNumber32(x: bv32, d: Octet)
    ensures Number32(Plus32(x, Wide32(FromNum(d)))) == (Number32(x) + d) % TWO32
  {
    hide Num, FromNum, Increment, Number32, Plus32, Wide32;
    if d == 0 {
      ZeroByte();
      WideNext32(x, 0);
    } else {
      FromNumNext(d - 1);
      PlusNumber32(x, d - 1);
      WideNext32(x, FromNum(d - 1));
      Next32(Plus32(x, Wide32(FromNum(d - 1))));
    }
  }

  // ---------- Differences ----------

  lemma LessIs8(x: Byte, y: Byte)
    ensures Less8(x, y) == x - y && Plus8(x - y, y) == x
  {
  }

  lemma Restored8(x: Byte, y: Byte)
    ensures Plus8(Less8(x, y), y) == x
  {
    hide Plus8, Less8;
    LessIs8(x, y);
  }

  lemma LessIs16(x: bv16, y: bv16)
    ensures Less16(x, y) == x - y && Plus16(x - y, y) == x
  {
  }

  lemma Restored16(x: bv16, y: bv16)
    ensures Plus16(Less16(x, y), y) == x
  {
    hide Plus16, Less16;
    LessIs16(x, y);
  }

  lemma LessIs32(x: bv32, y: bv32)
    ensures Less32(x, y) == x - y && Plus32(x - y, y) == x
  {
  }

  lemma Restored32(x: bv32, y: bv32)
    ensures Plus32(Less32(x, y), y) == x
  {
    hide Plus32, Less32;
    LessIs32(x, y);
  }

  /** What a step of `d` gives with wrap-around at `m`. */
  function Stepped(v: nat, d: nat, sub: bool, m: nat): (r: nat)
    requires v < m && d < m
    ensures r < m && (sub ==> r + d == v || r + d == v + m) && (!sub ==> r == v + d || r + m == v + d)
  {
    if sub then (if v >= d then v - d else v + m - d) else if v + d < m then v + d else v + d - m
  }

  /** The same as arithmetic modulo `m`. */
  lemma SteppedIsModulo(v: nat, d: nat, sub: bool)
    requires d < 256
    ensures v < 0x100 ==> Stepped(v, d, sub, 0x100) == (if sub then v - d else v + d) % 0x100
    ensures v < 0x1_0000 ==> Stepped(v, d, sub, 0x1_0000) == (if sub then v - d else v + d) % 0x1_0000
    ensures v < TWO32 ==> Stepped(v, d, sub, TWO32) == (if sub then v - d else v + d) % TWO32
  {
  }

  /** Undoing a step up is a step down. */
  lemma StepDown(v: nat, w: nat, d: nat, m: nat)
    requires d < m && v < m && w < m && Stepped(w, d, false, m) == v
    ensures w == Stepped(v, d, true, m)
  {
  }

  lemma AddNumber8(b: Byte, d: Octet, sub: bool)
    ensures Num(Add8(b, d, sub)) == Stepped(Num(b), d, sub, 0x100)
  {
    hide Num, FromNum, Plus8, Less8;
    if sub {
      var y := Less8(b, FromNum(d));
      PlusNumber8(y, d);
      Restored8(b, FromNum(d));
      SteppedIsModulo(Num(y), d, false);
      StepDown(Num(b), Num(y), d, 0x100);
    } else {
      PlusNumber8(b, d);
      SteppedIsModulo(Num(b), d, false);
    }
  }

  lemma AddNumber16(x: bv16, d: Octet, sub: bool)
    ensures Number16(Add16(x, d, sub)) == Stepped(Number16(x), d, sub, 0x1_0000)
  {
    hide Num, FromNum, Plus16, Less16, Wide16, Number16;
    if sub {
      var y := Less16(x, Wide16(FromNum(d)));
      PlusNumber16(y, d);
      Restored16(x, Wide16(FromNum(d)));
      SteppedIsModulo(Number16(y), d, false);
      StepDown(Number16(x), Number16(y), d, 0x1_0000);
    } else {
      PlusNumber16(x, d);
      SteppedIsModulo(Number16(x), d, false);
    }
  }

  lemma AddNumber32(x: bv32, d: Octet, sub: bool)
    ensures Number32(Add32(x, d, sub)) == Stepped(Number32(x), d, sub, TWO32)
  {
    hide Num, FromNum, Plus32, Less32, Wide32, Number32;
    if sub {
      var y := Less32(x, Wide32(FromNum(d)));
      PlusNumber32(y, d);
      Restored32(x, Wide32(FromNum(d)));
      SteppedIsModulo(Number32(y), d, false);
      StepDown(Number32(x), Number32(y), d, TWO32);
    } else {
      PlusNumber32(x, d);
      SteppedIsModulo(Number32(x), d, false);
    }
  }
  // ---------- Bytes and words ----------

  lemma ValueOfTwo(b0: Byte, b1: Byte)
    ensures Value([b0, b1]) == Num(b0) + 256 * Num(b1)
  {
    hide Num;
    var n := Nums([b0, b1]);
    assert n == [Num(b0), Num(b1)] && n[1..] == [Num(b1)];
    assert OctetValue([Num(b1)]) == Num(b1);
  }

  lemma ValueOfFour(b0: Byte, b1: Byte, b2: Byte, b3: Byte)
    ensures Value([b0, b1, b2, b3]) == Join4(Num(b0), Num(b1), Num(b2), Num(b3))
  {
    hide Num, Join4;
    var n := Nums([b0, b1, b2, b3]);
    assert n == [Num(b0), Num(b1), Num(b2), Num(b3)];
    FourOctets(Num(b0), Num(b1), Num(b2), Num(b3));
  }

  lemma FourOctets(n0: Octet, n1: Octet, n2: Octet, n3: Octet)
    ensures OctetValue([n0, n1, n2, n3]) == Join4(n0, n1, n2, n3)
  {
    var s1, s2, s3: seq<Octet> := [n1, n2, n3], [n2, n3], [n3];
    assert [n0, n1, n2, n3][1..] == s1 && s1[1..] == s2 && s2[1..] == s3 && s3[1..] == [];
    assert OctetValue(s3) == n3;
    assert OctetValue(s2) == n2 + 256 * n3;
    assert OctetValue(s1) == n1 + 256 * OctetValue(s2);
  }

  lemma BytesOfWord16(b0: Byte, b1: Byte)
    ensures Lo(Little16(b0, b1)) == b0 && Hi(Little16(b0, b1)) == b1
    ensures Lo(Big16(b0, b1)) == b1 && Hi(Big16(b0, b1)) == b0
  {
  }

  lemma LittleWord32(b0: Byte, b1: Byte, b2: Byte, b3: Byte)
    ensures B0(Little32(b0, b1, b2, b3)) == b0 && B1(Little32(b0, b1, b2, b3)) == b1
    ensures B2(Little32(b0, b1, b2, b3)) == b2 && B3(Little32(b0, b1, b2, b3)) == b3
  {
  }

  lemma BigWord32(b0: Byte, b1: Byte, b2: Byte, b3: Byte)
    ensures B0(Big32(b0, b1, b2, b3)) == b3 && B1(Big32(b0, b1, b2, b3)) == b2
    ensures B2(Big32(b0, b1, b2, b3)) == b1 && B3(Big32(b0, b1, b2, b3)) == b0
  {
  }

  /** The bytes of a word, least significant first, when they stand in the given order. */
  function Ordered(s: seq<Byte>, big: bool): seq<Byte> {
    if big then seq(|s|, i requires 0 <= i < |s| => s[|s| - 1 - i]) else s
  }

  lemma Ordered2(b0: Byte, b1: Byte, big: bool)
    ensures Ordered([b0, b1], big) == if big then [b1, b0] else [b0, b1]
  {
  }

  lemma Ordered4(b0: Byte, b1: Byte, b2: Byte, b3: Byte, big: bool)
    ensures Ordered([b0, b1, b2, b3], big) == if big then [b3, b2, b1, b0] else [b0, b1, b2, b3]
  {
  }

  /** The number that two bytes spell is the number of the word read from them. */
  lemma ReadNumber16(b0: Byte, b1: Byte, big: bool)
    ensures Number16(if big then Big16(b0, b1) else Little16(b0, b1)) == Value(Ordered([b0, b1], big))
  {
    hide Num, Value, Lo, Hi, Little16, Big16, Ordered;
    BytesOfWord16(b0, b1);
    Ordered2(b0, b1, big);
    ValueOfTwo(b0, b1);
    ValueOfTwo(b1, b0);
  }

  lemma ReadNumber32(b0: Byte, b1: Byte, b2: Byte, b3: Byte, big: bool)
    ensures Number32(if big then Big32(b0, b1, b2, b3) else Little32(b0, b1, b2, b3))
         == Value(Ordered([b0, b1, b2, b3], big))
  {
    hide Num, Value, B0, B1, B2, B3, Little32, Big32, Ordered, Join4;
    LittleWord32(b0, b1, b2, b3);
    BigWord32(b0, b1, b2, b3);
    Ordered4(b0, b1, b2, b3, big);
    ValueOfFour(b0, b1, b2, b3);
    ValueOfFour(b3, b2, b1, b0);
  }

  /** The bytes stored for a word spell its number. */
  lemma StoredNumber16(x: bv16, big: bool)
    ensures Value(Ordered(if big then BigBytes16(x) else LittleBytes16(x), big)) == Number16(x)
  {
    hide Num, Value, Lo, Hi, Ordered;
    Ordered2(Lo(x), Hi(x), false);
    Ordered2(Hi(x), Lo(x), true);
    ValueOfTwo(Lo(x), Hi(x));
  }

  lemma StoredNumber32(x: bv32, big: bool)
    ensures Value(Ordered(if big then BigBytes32(x) else LittleBytes32(x), big)) == Number32(x)
  {
    hide Num, Value, B0, B1, B2, B3, Ordered, Join4;
    Ordered4(B0(x), B1(x), B2(x), B3(x), false);
    Ordered4(B3(x), B2(x), B1(x), B0(x), true);
    ValueOfFour(B0(x), B1(x), B2(x), B3(x));
  }
}
