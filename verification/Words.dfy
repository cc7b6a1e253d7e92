/** Bytes, little-endian words and wrap-around arithmetic shared by the models of the C files. */
module Words {

  type Byte = bv8

  const TWO32: nat := 0x1_0000_0000
  const TWO64: nat := 0x1_0000_0000_0000_0000

  datatype Option<+T> = None | Some(value: T)

  /** A byte as a number. */
  type Octet = b: nat | b < 256

  /** The `n` low-order bytes of `v`, least significant first. */
  function Octets(v: nat, n: nat): (s: seq<Octet>)
    ensures |s| == n
  {
    if n == 0 then [] else [v % 256] + Octets(v / 256, n - 1)
  }

  /** The number whose little-endian bytes are `s`. */
  function OctetValue(s: seq<Octet>): nat {
    if s == [] then 0 else s[0] + 256 * OctetValue(s[1..])
  }

  function Power256(n: nat): nat {
    if n == 0 then 1 else 256 * Power256(n - 1)
  }

  lemma {:induction false} OctetsOfValue(s: seq<Octet>)
    ensures Octets(OctetValue(s), |s|) == s
  {
    if s != [] {
      var rest := OctetValue(s[1..]);
      OctetsOfValue(s[1..]);
      LowestOctet(s[0], rest);
      assert Octets(s[0] + 256 * rest, |s|) == [s[0]] + Octets(rest, |s| - 1);
    }
  }

  lemma LowestOctet(b: Octet, rest: nat)
    ensures (b + 256 * rest) % 256 == b && (b + 256 * rest) / 256 == rest
  {
  }

  lemma {:induction false} ValueOfOctets(v: nat, n: nat)
    requires v < Power256(n)
    ensures OctetValue(Octets(v, n)) == v
  {
    if n > 0 {
      assert Octets(v, n)[1..] == Octets(v / 256, n - 1);
      ValueOfOctets(v / 256, n - 1);
    }
  }

  // ---------- Bytes and their numbers ----------

  /** The bits of a byte, least significant first. */
  datatype Bits = Bits(b0: bool, b1: bool, b2: bool, b3: bool, b4: bool, b5: bool, b6: bool, b7: bool)

  /** A bit below the bits of `rest`. */
  function Push(on: bool, rest: nat): nat {
    (if on then 1 else 0) + 2 * rest
  }

  lemma Pushed(on: bool, rest: nat)
    ensures (Push(on, rest) % 2 == 1) == on && Push(on, rest) / 2 == rest
  {
  }

  lemma Halved(d: nat)
    ensures Push(d % 2 == 1, d / 2) == d
  {
  }

  function HighValue(x: Bits): (v: nat)
    ensures v < 16
  {
    Push(x.b4, Push(x.b5, Push(x.b6, Push(x.b7, 0))))
  }

  function BitValue(x: Bits): Octet {
    Push(x.b0, Push(x.b1, Push(x.b2, Push(x.b3, HighValue(x)))))
  }

  function BitsOf(d: Octet): Bits {
    var d1 := d / 2;
    var d2 := d1 / 2;
    var d3 := d2 / 2;
    var d4 := d3 / 2;
    var d5 := d4 / 2;
    var d6 := d5 / 2;
    var d7 := d6 / 2;
    Bits(d % 2 == 1, d1 % 2 == 1, d2 % 2 == 1, d3 % 2 == 1, d4 % 2 == 1, d5 % 2 == 1, d6 % 2 == 1, d7 % 2 == 1)
  }

  lemma BitsOfBitValue(x: Bits)
    ensures BitsOf(BitValue(x)) == x
  {
    hide Push;
    var v7 := Push(x.b7, 0);
    var v6 := Push(x.b6, v7);
    var v5 := Push(x.b5, v6);
    var v4 := Push(x.b4, v5);
    var v3 := Push(x.b3, v4);
    var v2 := Push(x.b2, v3);
    var v1 := Push(x.b1, v2);
    Pushed(x.b7, 0);
    Pushed(x.b6, v7);
    Pushed(x.b5, v6);
    Pushed(x.b4, v5);
    Pushed(x.b3, v4);
    Pushed(x.b2, v3);
    Pushed(x.b1, v2);
    Pushed(x.b0, v1);
  }

  lemma BitValueOfBits(d: Octet)
    ensures BitValue(BitsOf(d)) == d
  {
    hide Push;
    var d1 := d / 2;
    var d2 := d1 / 2;
    var d3 := d2 / 2;
    var d4 := d3 / 2;
    var d5 := d4 / 2;
    var d6 := d5 / 2;
    var d7 := d6 / 2;
    Halved(d);
    Halved(d1);
    Halved(d2);
    Halved(d3);
    Halved(d4);
    Halved(d5);
    Halved(d6);
    Halved(d7);
    assert d7 / 2 == 0;
  }

  function ByteBits(b: Byte): Bits {
    Bits(b & 1 != 0, b & 2 != 0, b & 4 != 0, b & 8 != 0, b & 16 != 0, b & 32 != 0, b & 64 != 0, b & 128 != 0)
  }

  function ByteOfBits(x: Bits): Byte {
    (if x.b0 then 1 else 0) | (if x.b1 then 2 else 0) | (if x.b2 then 4 else 0) | (if x.b3 then 8 else 0) |
    (if x.b4 then 16 else 0) | (if x.b5 then 32 else 0) | (if x.b6 then 64 else 0) | (if x.b7 then 128 else 0)
  }

  lemma BitsOfByte(b: Byte)
    ensures ByteOfBits(ByteBits(b)) == b
  {
  }

  lemma ByteOfItsBits(x: Bits)
    ensures ByteBits(ByteOfBits(x)) == x
  {
  }

  /** The number of a byte: the weights of its bits. */
  function Num(b: Byte): Octet {
    BitValue(ByteBits(b))
  }

  function FromNum(d: Octet): Byte {
    ByteOfBits(BitsOf(d))
  }

  lemma FromNumOfNum(b: Byte)
    ensures FromNum(Num(b)) == b
  {
    hide ByteBits, ByteOfBits, BitsOf, BitValue;
    BitsOfBitValue(ByteBits(b));
    BitsOfByte(b);
  }

  lemma NumOfFromNum(d: Octet)
    ensures Num(FromNum(d)) == d
  {
    hide ByteBits, ByteOfBits, BitsOf, BitValue;
    ByteOfItsBits(BitsOf(d));
    BitValueOfBits(d);
  }

  function Nums(s: seq<Byte>): (r: seq<Octet>)
    ensures |r| == |s|
  {
    seq<Octet>(|s|, i requires 0 <= i < |s| => Num(s[i]))
  }

  /** The number whose little-endian bytes are `s`. */
  function Value(s: seq<Byte>): nat {
    OctetValue(Nums(s))
  }

  /** The `n` low-order bytes of `v`, least significant first. */
  function LittleEndian(v: nat, n: nat): (s: seq<Byte>)
    ensures |s| == n
  {
    seq(n, i requires 0 <= i < n => FromNum(Octets(v, n)[i]))
  }

  /** Writing back what was read restores the bytes. */
  lemma WriteOfRead(s: seq<Byte>)
    ensures LittleEndian(Value(s), |s|) == s
  {
    hide Octets, OctetValue, Num, FromNum;
    OctetsOfValue(Nums(s));
    forall i | 0 <= i < |s|
      ensures LittleEndian(Value(s), |s|)[i] == s[i]
    {
      FromNumOfNum(s[i]);
    }
  }

  lemma NumsOfBytes(v: nat, n: nat)
    ensures Nums(LittleEndian(v, n)) == Octets(v, n)
  {
    hide Octets, Num, FromNum;
    forall i | 0 <= i < n
      ensures Nums(LittleEndian(v, n))[i] == Octets(v, n)[i]
    {
      NumOfFromNum(Octets(v, n)[i]);
    }
  }

  /** Reading what was written gives the number. */
  lemma ReadOfWrite(v: nat, n: nat)
    requires v < Power256(n)
    ensures Value(LittleEndian(v, n)) == v
  {
    hide Octets, OctetValue, Nums, LittleEndian, Power256;
    NumsOfBytes(v, n);
    ValueOfOctets(v, n);
  }

  lemma {:induction false} OctetBound(s: seq<Octet>)
    ensures OctetValue(s) < Power256(|s|)
  {
    if s != [] {
      OctetBound(s[1..]);
    }
  }

  lemma Powers256()
    ensures Power256(1) == 0x100 && Power256(2) == 0x1_0000 && Power256(4) == TWO32 && Power256(8) == TWO64
  {
    assert Power256(3) == 0x100_0000 && Power256(4) == TWO32;
    assert Power256(5) == 0x100_0000_0000 && Power256(6) == 0x1_0000_0000_0000;
    assert Power256(7) == 0x100_0000_0000_0000;
  }

  /** Eight bytes hold a 64-bit number. */
  lemma EightBytesBound(s: seq<Byte>)
    requires |s| == 8
    ensures Value(s) < TWO64
  {
    hide Power256;
    OctetBound(Nums(s));
    Powers256();
  }

  /** A 64-bit unsigned counter. */
  function Wrap64(n: nat): (w: nat)
    ensures w < TWO64
  {
    n % TWO64
  }

  lemma WrapSum(a: nat, b: nat)
    ensures Wrap64(Wrap64(a) + b) == Wrap64(a + b)
  {
  }

  /** The input that the chunks of a run of updates spell; a NULL chunk adds nothing. */
  function Flatten(chunks: seq<Option<seq<Byte>>>): seq<Byte> {
    if chunks == [] then []
    else Flatten(chunks[..|chunks| - 1]) + (var c := chunks[|chunks| - 1]; if c.None? then [] else c.value)
  }

  lemma FlattenStep(chunks: seq<Option<seq<Byte>>>, i: nat)
    requires i < |chunks|
    ensures Flatten(chunks[..i + 1])
         == if chunks[i].None? then Flatten(chunks[..i]) else Flatten(chunks[..i]) + chunks[i].value
  {
    assert chunks[..i + 1][..i] == chunks[..i];
    assert Flatten(chunks[..i]) + [] == Flatten(chunks[..i]);
  }

  lemma FlattenNone(chunks: seq<Option<seq<Byte>>>)
    ensures Flatten(chunks[..0]) == []
  {
  }

  /** A slice of a prefix is a slice of the whole. */
  lemma SliceOfPrefix(s: seq<Byte>, len: nat, from: nat, end: nat)
    requires from <= end <= len <= |s|
    ensures s[..len][from..end] == s[from..end]
  {
  }

  /** memcpy of `src` into `dst` at `off`. */
  method CopyInto(dst: array<Byte>, off: nat, src: seq<Byte>)
    requires off + |src| <= dst.Length
    modifies dst
    ensures dst[..] == old(dst[..off]) + src + old(dst[off + |src|..])
    ensures dst[..off] == old(dst[..off]) && dst[off..off + |src|] == src
    ensures dst[off + |src|..] == old(dst[off + |src|..])
  {
    forall i | 0 <= i < |src| {
      dst[off + i] := src[i];
    }
  }

  function Overwrite(s: seq<Byte>, at: nat, bytes: seq<Byte>): (r: seq<Byte>)
    requires at + |bytes| <= |s|
    ensures |r| == |s|
  {
    s[..at] + bytes + s[at + |bytes|..]
  }

  /** The same memcpy, as one function of the old contents. */
  method Put(dst: array<Byte>, at: nat, src: seq<Byte>)
    requires at + |src| <= dst.Length
    modifies dst
    ensures dst[..] == Overwrite(old(dst[..]), at, src)
  {
    ghost var before := dst[..];
    CopyInto(dst, at, src);
    assert before[..at] == old(dst[..at]) && before[at + |src|..] == old(dst[at + |src|..]);
  }

  // ---------- Multiples ----------

  lemma Scaled(n: nat, c: nat, d: nat)
    requires c < d
    ensures n * c + n <= n * d
  {
    assert n * (d - c - 1) >= 0;
  }

  /** Quotient and remainder are unique. */
  lemma Copies(n: nat, s1: nat, m1: nat, s2: nat, m2: nat)
    requires s1 < n && s2 < n && s1 + n * m1 == s2 + n * m2
    ensures s1 == s2 && m1 == m2
  {
    if m1 < m2 {
      Scaled(n, m1, m2);
    } else if m2 < m1 {
      Scaled(n, m2, m1);
    }
  }
}
