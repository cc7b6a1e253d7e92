/** What one havoc mutation may do to the test case: the drawn choices, their ranges and the resulting edit. */
module HavocSpec {
  import opened Words
  import opened HavocWords
  import opened HavocArith
  import opened HavocShuffle
  import opened HavocNumber

  const BLK_SMALL := 32
  const BLK_MEDIUM := 128
  const BLK_LARGE := 1500
  const BLK_XL := 32768
  const ARITH_MAX := 35

  /** The parts of afl_state_t and the arguments that afl_mutate reads. */
  datatype Env = Env(
    maxLen: nat,
    interesting8: seq<Byte>, interesting16: seq<bv16>, interesting32: seq<bv32>,
    extras: seq<seq<Byte>>, autoExtras: seq<seq<Byte>>,
    splice: seq<Byte>,
    queueCycle: nat, runOver10m: bool)

  /** All lengths stay clear of the 32-bit limit, and the tables of interesting values are not empty. */
  ghost predicate EnvOk(env: Env) {
    && env.maxLen + BLK_XL < TWO32 && |env.splice| < TWO32
    && env.interesting8 != [] && env.interesting16 != [] && env.interesting32 != []
    && (forall k | 0 <= k < |env.extras| :: env.maxLen + |env.extras[k]| < TWO32)
    && (forall k | 0 <= k < |env.autoExtras| :: env.maxLen + |env.autoExtras[k]| < TWO32)
    && |env.extras| < TWO32 && |env.autoExtras| < TWO32
    && |env.interesting8| < TWO32 && |env.interesting16| < TWO32 && |env.interesting32| < TWO32
  }

  // ---------- The simple edits ----------

  function Insert(s: seq<Byte>, at: nat, bytes: seq<Byte>): (r: seq<Byte>)
    requires at <= |s|
    ensures |r| == |s| + |bytes|
  {
    s[..at] + bytes + s[at..]
  }

  function Delete(s: seq<Byte>, at: nat, n: nat): (r: seq<Byte>)
    requires at + n <= |s|
    ensures |r| == |s| - n
  {
    s[..at] + s[at + n..]
  }

  function Replace(s: seq<Byte>, from: nat, end: nat, bytes: seq<Byte>): (r: seq<Byte>)
    requires from <= end <= |s|
    ensures |r| == |s| - (end - from) + |bytes|
  {
    s[..from] + bytes + s[end..]
  }

  /** Two blocks of n bytes that do not overlap, exchanged. */
  function ExchangeBlocks(s: seq<Byte>, a: nat, b: nat, n: nat): (r: seq<Byte>)
    requires a + n <= b && b + n <= |s|
    ensures |r| == |s|
  {
    s[..a] + s[b..b + n] + s[a + n..b] + s[a..a + n] + s[b + n..]
  }

  function Fill(value: Byte, n: nat): (r: seq<Byte>)
    ensures |r| == n
  {
    seq(n, _ => value)
  }

  /** Overwriting, byte by byte. */
  lemma OverwriteAt(s: seq<Byte>, at: nat, bytes: seq<Byte>, k: nat)
    requires at + |bytes| <= |s| && k < |s|
    ensures Overwrite(s, at, bytes)[k] == if at <= k < at + |bytes| then bytes[k - at] else s[k]
  {
  }

  lemma OverwritePrefix(s: seq<Byte>, len: nat, at: nat, bytes: seq<Byte>)
    requires at + |bytes| <= len <= |s|
    ensures Overwrite(s, at, bytes)[..len] == Overwrite(s[..len], at, bytes)
  {
    hide Overwrite;
    var l, r := Overwrite(s, at, bytes)[..len], Overwrite(s[..len], at, bytes);
    forall k | 0 <= k < len
      ensures l[k] == r[k]
    {
      OverwriteAt(s, at, bytes, k);
      OverwriteAt(s[..len], at, bytes, k);
    }
  }

  lemma InsertAt(s: seq<Byte>, at: nat, bytes: seq<Byte>, k: nat)
    requires at <= |s| && k < |s| + |bytes|
    ensures Insert(s, at, bytes)[k]
         == if k < at then s[k] else if k < at + |bytes| then bytes[k - at] else s[k - |bytes|]
  {
  }

  lemma DeleteAt(s: seq<Byte>, at: nat, n: nat, k: nat)
    requires at + n <= |s| && k < |s| - n
    ensures Delete(s, at, n)[k] == if k < at then s[k] else s[k + n]
  {
  }

  lemma ExchangeAt(s: seq<Byte>, a: nat, b: nat, n: nat, k: nat)
    requires a + n <= b && b + n <= |s| && k < |s|
    ensures ExchangeBlocks(s, a, b, n)[k]
         == if a <= k < a + n then s[k - a + b] else if b <= k < b + n then s[k - b + a] else s[k]
  {
  }

  // ---------- The choices ----------

  datatype Choice =
    | NoChange
    | FlipBit(off: nat, bit: nat)
    | Interesting8(off: nat, item: nat)
    | Interesting16(off: nat, item: nat, big: bool)
    | Interesting32(off: nat, item: nat, big: bool)
    | Arith8(off: nat, delta: nat, sub: bool)
    | Arith16(off: nat, delta: nat, big: bool, sub: bool)
    | Arith32(off: nat, delta: nat, big: bool, sub: bool)
    | Rand8(off: nat, mask: Byte)
    | CloneCopy(to: nat, from: nat, n: nat)
    | CloneFixed(to: nat, n: nat, value: Byte)
    | OverwriteCopy(to: nat, from: nat, n: nat)
    | OverwriteFixed(to: nat, n: nat, value: Byte)
    | ByteAdd(off: nat)
    | ByteSub(off: nat)
    | Flip8(off: nat)
    | Switch(a: nat, b: nat, n: nat)
    | Del(from: nat, n: nat)
    | Shuffle(off: nat, js: seq<nat>)
    | DelOne(from: nat)
    | InsertOne(to: nat, value: Byte)
    | AsciiNum(off: nat, used: nat, strat: nat, r: nat)
    | InsertAsciiNum(off: nat, n: nat, val: nat)
    | ExtraOverwrite(auto: bool, which: nat, off: nat)
    | ExtraInsert(auto: bool, which: nat, off: nat)
    | SpliceOverwrite(to: nat, from: nat, n: nat)
    | SpliceInsert(to: nat, from: nat, n: nat)

  function Dictionary(env: Env, auto: bool): seq<seq<Byte>> {
    if auto then env.autoExtras else env.extras
  }

  /** The value at `off`, negative when a minus sign stands before the run. */
  function NumberAt(s: seq<Byte>, off: nat, used: nat): int
    requires off + used <= |s| && forall k | off <= k < off + used :: IsDigit(s[k])
  {
    var v: int := Decimal(s[off..off + used]);
    if off > 0 && s[off - 1] == Minus() then -v else v
  }

  ghost predicate DigitRun(s: seq<Byte>, off: nat, used: nat) {
    && 1 <= used && off + used <= |s|
    && (forall k | off <= k < off + used :: IsDigit(s[k]))
    && Decimal(s[off..off + used]) <= INT64_MAX
       // the run ends at a non-digit, at the end, or where the value would leave 64 bits
    && (off + used < |s| && IsDigit(s[off + used]) ==> Decimal(s[off..off + used + 1]) > INT64_MAX)
  }

  /** The text that replaces the run, and where the replaced range ends. */
  function NumberText(s: seq<Byte>, c: Choice): (seq<Byte>, int)
    requires c.AsciiNum? && c.strat < 8
    requires c.off + c.used <= |s| && forall k | c.off <= k < c.off + c.used :: IsDigit(s[k])
  {
    var (v, cut) := Strategy(c.strat, NumberAt(s, c.off, c.used), c.r);
    (PointerSized(Text(v)), if cut then c.off + c.used - 1 else c.off + c.used)
  }

  /** The last n digits of a printed 64-bit number, or all of them. */
  function LastDigits(val: nat, n: nat): (t: seq<Byte>)
    ensures |t| <= n
  {
    var d := Digits(val);
    if n > |d| then d else d[|d| - n..]
  }

  /** They spell the number, or its remainder when it has more digits. */
  lemma LastDigitsSpell(val: nat, n: nat)
    ensures AllDigits(LastDigits(val, n))
    ensures Decimal(LastDigits(val, n)) == if n > |Digits(val)| then val else val % Power10(n)
  {
    hide Digits, Decimal, Power10, AllDigits;
    DigitsSpell(val);
    if n <= |Digits(val)| {
      SuffixIsRemainder(Digits(val), |Digits(val)| - n);
    }
  }

  /** The mutations that store bytes in place. */
  predicate IsPatch(c: Choice) {
    || c.FlipBit? || c.Interesting8? || c.Interesting16? || c.Interesting32? || c.Arith8? || c.Arith16? || c.Arith32?
    || c.Rand8? || c.OverwriteCopy? || c.OverwriteFixed? || c.ByteAdd? || c.ByteSub? || c.Flip8?
    || c.InsertAsciiNum? || c.ExtraOverwrite? || c.SpliceOverwrite?
  }

  /** The ranges from which the choices of an in-place mutation are drawn, and its guards. */
  predicate LegalPatch(env: Env, c: Choice, s: seq<Byte>)
    requires IsPatch(c)
  {
    match c
    case FlipBit(off, bit) => off < |s| && bit < 8
    case Interesting8(off, item) => off < |s| && item < |env.interesting8|
    case Interesting16(off, item, _) => off + 2 <= |s| && item < |env.interesting16|
    case Interesting32(off, item, _) => off + 4 <= |s| && item < |env.interesting32|
    case Arith8(off, delta, _) => off < |s| && 1 <= delta <= ARITH_MAX
    case Arith16(off, delta, _, _) => off + 2 <= |s| && 1 <= delta <= ARITH_MAX
    case Arith32(off, delta, _, _) => off + 4 <= |s| && 1 <= delta <= ARITH_MAX
    case Rand8(off, mask) => off < |s| && mask != 0
    case OverwriteCopy(to, from, n) => 1 <= n < |s| && from + n <= |s| && to + n <= |s|
    case OverwriteFixed(to, n, _) => 1 <= n < |s| && to + n <= |s|
    case ByteAdd(off) => off < |s|
    case ByteSub(off) => off < |s|
    case Flip8(off) => off < |s|
    case InsertAsciiNum(off, n, val) => 1 <= n <= 8 && off + n <= |s| && val < TWO64
    case ExtraOverwrite(auto, which, off) =>
      which < |Dictionary(env, auto)| && off + |Dictionary(env, auto)[which]| <= |s|
    case SpliceOverwrite(to, from, n) => 1 <= n && from + n <= |env.splice| && to + n <= |s|
  }

  /** The same for the mutations that move or resize blocks. */
  ghost predicate LegalBlock(env: Env, c: Choice, s: seq<Byte>)
    requires !IsPatch(c)
  {
    match c
    case NoChange => true
    case CloneCopy(to, from, n) => to < |s| && 1 <= n && from + n <= |s| && |s| + n <= env.maxLen
    case CloneFixed(to, n, _) => to < |s| && 1 <= n && |s| + n <= env.maxLen
    case Switch(a, b, n) => 1 <= n && a + n <= b && b + n <= |s|
    case Del(from, n) => 1 <= n < |s| && from + n <= |s|
    case Shuffle(off, js) => 1 <= |js| < |s| && off + |js| <= |s| && Draws(js, |js|)
    case DelOne(from) => 2 <= |s| && from < |s|
    case InsertOne(to, _) => to < |s| && |s| + 1 <= env.maxLen
    case AsciiNum(off, used, strat, r) =>
      && DigitRun(s, off, used) && strat < 8 && Drawn(strat, NumberAt(s, off, used), r)
      && var (text, end) := NumberText(s, c);
         off < end && (|text| == end - off || off + |text| + |s| - end <= env.maxLen)
    case ExtraInsert(auto, which, off) =>
      which < |Dictionary(env, auto)| && off <= |s| && |s| + |Dictionary(env, auto)[which]| <= env.maxLen
    case SpliceInsert(to, from, n) => 1 <= n && from + n <= |env.splice| && to <= |s| && |s| + n <= env.maxLen
  }

  ghost predicate Legal(env: Env, c: Choice, s: seq<Byte>) {
    if IsPatch(c) then LegalPatch(env, c, s) else LegalBlock(env, c, s)
  }

  /** A 16-bit word at `off`, changed in the given byte order. */
  function Word16(s: seq<Byte>, off: nat, delta: nat, big: bool, sub: bool): (r: seq<Byte>)
    requires off + 2 <= |s| && delta < 256
    ensures |r| == 2
  {
    if big then BigBytes16(Add16(Big16(s[off], s[off + 1]), delta, sub))
    else LittleBytes16(Add16(Little16(s[off], s[off + 1]), delta, sub))
  }

  /** A 32-bit word at `off`; the big-endian addition of the code is a little-endian one. */
  function Word32(s: seq<Byte>, off: nat, delta: nat, big: bool, sub: bool): (r: seq<Byte>)
    requires off + 4 <= |s| && delta < 256
    ensures |r| == 4
  {
    if big && sub
    then BigBytes32(Add32(Big32(s[off], s[off + 1], s[off + 2], s[off + 3]), delta, sub))
    else LittleBytes32(Add32(Little32(s[off], s[off + 1], s[off + 2], s[off + 3]), delta, sub))
  }

  /** The mutations that store bytes in place: where, and which. */
  function Patch(env: Env, c: Choice, s: seq<Byte>): (p: (nat, seq<Byte>))
    requires IsPatch(c) && LegalPatch(env, c, s)
    ensures p.0 + |p.1| <= |s|
  {
    match c
    case FlipBit(off, bit) => (off, [FlippedBit(s[off], bit)])
    case Interesting8(off, item) => (off, [env.interesting8[item]])
    case Interesting16(off, item, big) =>
      (off, if big then BigBytes16(env.interesting16[item]) else LittleBytes16(env.interesting16[item]))
    case Interesting32(off, item, big) =>
      (off, if big then BigBytes32(env.interesting32[item]) else LittleBytes32(env.interesting32[item]))
    case Arith8(off, delta, sub) => (off, [Add8(s[off], delta, sub)])
    case Arith16(off, delta, big, sub) => (off, Word16(s, off, delta, big, sub))
    case Arith32(off, delta, big, sub) => (off, Word32(s, off, delta, big, sub))
    case Rand8(off, mask) => (off, [Masked(s[off], mask)])
    case OverwriteCopy(to, from, n) => (to, s[from..from + n])
    case OverwriteFixed(to, n, value) => (to, Fill(value, n))
    case ByteAdd(off) => (off, [Increment(s[off])])
    case ByteSub(off) => (off, [Decrement(s[off])])
    case Flip8(off) => (off, [Masked(s[off], 0xff)])
    case InsertAsciiNum(off, n, val) => (off, LastDigits(val, n))
    case ExtraOverwrite(auto, which, off) => (off, Dictionary(env, auto)[which])
    case SpliceOverwrite(to, from, n) => (to, env.splice[from..from + n])
  }

  ghost function ShuffleEffect(s: seq<Byte>, off: nat, js: seq<nat>): seq<Byte>
    requires 1 <= |js| && off + |js| <= |s| && Draws(js, |js|)
  {
    Overwrite(s, off, Shuffled(s[off..off + |js|], |js| - 1, js))
  }

  /** The test case after the mutation. */
  ghost function Effect(env: Env, c: Choice, s: seq<Byte>): seq<Byte>
    requires Legal(env, c, s)
  {
    if IsPatch(c) then Overwrite(s, Patch(env, c, s).0, Patch(env, c, s).1)
    else match c
         case NoChange => s
         case CloneCopy(to, from, n) => Insert(s, to, s[from..from + n])
         case CloneFixed(to, n, value) => Insert(s, to, Fill(value, n))
         case Switch(a, b, n) => ExchangeBlocks(s, a, b, n)
         case Del(from, n) => Delete(s, from, n)
         case Shuffle(off, js) => ShuffleEffect(s, off, js)
         case DelOne(from) => Delete(s, from, 1)
         case InsertOne(to, value) => Insert(s, to, [value])
         case AsciiNum(off, used, strat, r) => Replace(s, off, NumberText(s, c).1, NumberText(s, c).0)
         case ExtraInsert(auto, which, off) => Insert(s, off, Dictionary(env, auto)[which])
         case SpliceInsert(to, from, n) => Insert(s, to, env.splice[from..from + n])
  }

  /** No mutation leaves an empty test case or one longer than the limit. */
  lemma EffectKeepsBounds(env: Env, c: Choice, s: seq<Byte>)
    requires 1 <= |s| <= env.maxLen && Legal(env, c, s)
    ensures 1 <= |Effect(env, c, s)| <= env.maxLen
  {
    hide Shuffled, Digits, Decimal;
  }

  // ---------- What the arithmetic does to the numbers ----------

  lemma Word16Value(s: seq<Byte>, off: nat, delta: Octet, big: bool, sub: bool)
    requires off + 2 <= |s|
    ensures Value(Ordered(s[off..off + 2], big)) < 0x1_0000
    ensures Value(Ordered(Word16(s, off, delta, big, sub), big))
         == Stepped(Value(Ordered(s[off..off + 2], big)), delta, sub, 0x1_0000)
  {
    hide Value, Ordered, Number16, Add16, Big16, Little16, BigBytes16, LittleBytes16;
    var x := if big then Big16(s[off], s[off + 1]) else Little16(s[off], s[off + 1]);
    assert s[off..off + 2] == [s[off], s[off + 1]];
    ReadNumber16(s[off], s[off + 1], big);
    AddNumber16(x, delta, sub);
    StoredNumber16(Add16(x, delta, sub), big);
  }

  lemma Word32Value(s: seq<Byte>, off: nat, delta: Octet, big: bool, sub: bool)
    requires off + 4 <= |s|
    ensures Value(Ordered(s[off..off + 4], big && sub)) < TWO32
    ensures Value(Ordered(Word32(s, off, delta, big, sub), big && sub))
         == Stepped(Value(Ordered(s[off..off + 4], big && sub)), delta, sub, TWO32)
  {
    hide Value, Ordered, Number32, Add32, Big32, Little32, BigBytes32, LittleBytes32;
    var x := if big && sub then Big32(s[off], s[off + 1], s[off + 2], s[off + 3])
             else Little32(s[off], s[off + 1], s[off + 2], s[off + 3]);
    assert s[off..off + 4] == [s[off], s[off + 1], s[off + 2], s[off + 3]];
    ReadNumber32(s[off], s[off + 1], s[off + 2], s[off + 3], big && sub);
    AddNumber32(x, delta, sub);
    StoredNumber32(Add32(x, delta, sub), big && sub);
  }

  lemma PatchedPart(s: seq<Byte>, at: nat, bytes: seq<Byte>)
    requires at + |bytes| <= |s|
    ensures Overwrite(s, at, bytes)[at..at + |bytes|] == bytes
    ensures Overwrite(s, at, bytes)[..at] == s[..at] && Overwrite(s, at, bytes)[at + |bytes|..] == s[at + |bytes|..]
  {
  }

  /** The two bytes, read in the byte order of the kind, go up or down by `delta` modulo 2^16; the rest stays. */
  lemma Arith16Means(env: Env, c: Choice, s: seq<Byte>)
    requires c.Arith16? && Legal(env, c, s)
    ensures
      var e := Effect(env, c, s);
      && |e| == |s| && e[..c.off] == s[..c.off] && e[c.off + 2..] == s[c.off + 2..]
      && Value(Ordered(s[c.off..c.off + 2], c.big)) < 0x1_0000
      && Value(Ordered(e[c.off..c.off + 2], c.big))
         == Stepped(Value(Ordered(s[c.off..c.off + 2], c.big)), c.delta, c.sub, 0x1_0000)
  {
    hide Value, Ordered, Word16, Overwrite, Stepped;
    Word16Value(s, c.off, c.delta, c.big, c.sub);
    PatchedPart(s, c.off, Word16(s, c.off, c.delta, c.big, c.sub));
  }

  /** The same for four bytes modulo 2^32, where MUT_ARITH32BE counts little-endian. */
  lemma Arith32Means(env: Env, c: Choice, s: seq<Byte>)
    requires c.Arith32? && Legal(env, c, s)
    ensures
      var e := Effect(env, c, s);
      && |e| == |s| && e[..c.off] == s[..c.off] && e[c.off + 4..] == s[c.off + 4..]
      && Value(Ordered(s[c.off..c.off + 4], c.big && c.sub)) < TWO32
      && Value(Ordered(e[c.off..c.off + 4], c.big && c.sub))
         == Stepped(Value(Ordered(s[c.off..c.off + 4], c.big && c.sub)), c.delta, c.sub, TWO32)
  {
    hide Value, Ordered, Word32, Overwrite, Stepped;
    Word32Value(s, c.off, c.delta, c.big, c.sub);
    PatchedPart(s, c.off, Word32(s, c.off, c.delta, c.big, c.sub));
  }

  /** The kinds that change one byte, by the number of the byte. */
  lemma ByteMeans(env: Env, c: Choice, s: seq<Byte>)
    requires Legal(env, c, s) && (c.Arith8? || c.ByteAdd? || c.ByteSub? || c.Flip8?)
    ensures
      var e := Effect(env, c, s);
      && |e| == |s| && e[..c.off] == s[..c.off] && e[c.off + 1..] == s[c.off + 1..]
      && (c.Arith8? ==> Num(e[c.off]) == Stepped(Num(s[c.off]), c.delta, c.sub, 256))
      && (c.ByteAdd? ==> Num(e[c.off]) == (Num(s[c.off]) + 1) % 256)
      && (c.ByteSub? ==> Num(e[c.off]) == (Num(s[c.off]) + 255) % 256)
      && (c.Flip8? ==> Num(e[c.off]) == 255 - Num(s[c.off]))
  {
    hide Num, Add8, Increment, Decrement, Masked, Stepped, Overwrite;
    var b := s[c.off];
    PatchedPart(s, c.off, Patch(env, c, s).1);
    if c.Arith8? {
      AddNumber8(b, c.delta, c.sub);
      assert Effect(env, c, s)[c.off..c.off + 1] == [Add8(b, c.delta, c.sub)];
    } else if c.ByteAdd? {
      NumNext(b);
      assert Effect(env, c, s)[c.off..c.off + 1] == [Increment(b)];
    } else if c.ByteSub? {
      NumPrevious(b);
      assert Effect(env, c, s)[c.off..c.off + 1] == [Decrement(b)];
    } else {
      Complement(b);
      assert Effect(env, c, s)[c.off..c.off + 1] == [Masked(b, 0xff)];
    }
    assert Effect(env, c, s)[c.off] == Effect(env, c, s)[c.off..c.off + 1][0];
  }

  /** The interesting words are stored as numbers in the named byte order. */
  lemma InterestingMeans(env: Env, c: Choice, s: seq<Byte>)
    requires Legal(env, c, s) && (c.Interesting16? || c.Interesting32?)
    ensures c.Interesting16? ==>
      Value(Ordered(Effect(env, c, s)[c.off..c.off + 2], c.big)) == Number16(env.interesting16[c.item])
    ensures c.Interesting32? ==>
      Value(Ordered(Effect(env, c, s)[c.off..c.off + 4], c.big)) == Number32(env.interesting32[c.item])
  {
    hide Value, Ordered, Number16, Number32, Overwrite, BigBytes16, LittleBytes16, BigBytes32, LittleBytes32;
    PatchedPart(s, c.off, Patch(env, c, s).1);
    if c.Interesting16? {
      StoredNumber16(env.interesting16[c.item], c.big);
    } else {
      StoredNumber32(env.interesting32[c.item], c.big);
    }
  }

  /** A flipped bit and a random mask: exactly those bits change, the length and the other bytes do not. */
  lemma MaskMeans(env: Env, c: Choice, s: seq<Byte>)
    requires Legal(env, c, s) && (c.FlipBit? || c.Rand8?)
    ensures
      var e := Effect(env, c, s);
      && |e| == |s| && e[..c.off] == s[..c.off] && e[c.off + 1..] == s[c.off + 1..] && e[c.off] != s[c.off]
      && (c.FlipBit? ==> forall k: nat | k < 8 ::
            BitAt(ByteBits(e[c.off]), k) == (BitAt(ByteBits(s[c.off]), k) != (k == c.bit)))
      && (c.Rand8? ==> Masked(e[c.off], c.mask) == s[c.off])
  {
    hide ByteBits, Masked, Mask, BitAt, Overwrite;
    var b := s[c.off];
    PatchedPart(s, c.off, Patch(env, c, s).1);
    assert Effect(env, c, s)[c.off] == Effect(env, c, s)[c.off..c.off + 1][0];
    if c.FlipBit? {
      forall k: nat | k < 8
        ensures BitAt(ByteBits(FlippedBit(b, c.bit)), k) == (BitAt(ByteBits(b), k) != (k == c.bit))
      {
        FlipChangesOne(b, c.bit, k);
      }
      MaskTwice(b, Mask(c.bit));
      MaskNotZero(c.bit);
    } else {
      MaskTwice(b, c.mask);
    }
  }

  /** MUT_INSERTASCIINUM leaves digits that spell the drawn number, or its last digits. */
  lemma InsertAsciiNumMeans(env: Env, c: Choice, s: seq<Byte>)
    requires c.InsertAsciiNum? && Legal(env, c, s)
    ensures
      var e, t := Effect(env, c, s), LastDigits(c.val, c.n);
      && |e| == |s| && e[..c.off] == s[..c.off] && e[c.off + |t|..] == s[c.off + |t|..]
      && e[c.off..c.off + |t|] == t && AllDigits(t)
      && Decimal(t) == if c.n > |Digits(c.val)| then c.val else c.val % Power10(c.n)
  {
    hide LastDigits, Digits, Decimal, Power10, AllDigits, Overwrite;
    LastDigitsSpell(c.val, c.n);
    PatchedPart(s, c.off, LastDigits(c.val, c.n));
  }

  /** The number that MUT_ASCIINUM leaves reads back as the new value exactly in seven characters. */
  lemma AsciiNumStores(env: Env, c: Choice, s: seq<Byte>)
    requires c.AsciiNum? && Legal(env, c, s)
    ensures
      var v, text := Strategy(c.strat, NumberAt(s, c.off, c.used), c.r).0, NumberText(s, c).0;
      && c.off + |text| <= |Effect(env, c, s)| && Effect(env, c, s)[c.off..c.off + |text|] == text
      && IsNumber(text) && (ReadText(text) == v <==> -1_000_000 < v < 10_000_000)
  {
    hide Decimal, Digits, Strategy, Shuffled, ReadText, Text;
    StoredNumber(Strategy(c.strat, NumberAt(s, c.off, c.used), c.r).0);
  }

  // ---------- Runs ----------

  /** The test case after a sequence of mutations. */
  ghost predicate Mutated(env: Env, before: seq<Byte>, cs: seq<Choice>, after: seq<Byte>)
    decreases |cs|
  {
    if cs == [] then after == before
    else Legal(env, cs[0], before) && Mutated(env, Effect(env, cs[0], before), cs[1..], after)
  }

  /** Every run of every length keeps the length within 1 and the limit. */
  lemma {:induction false} RunKeepsBounds(env: Env, before: seq<Byte>, cs: seq<Choice>, after: seq<Byte>)
    requires 1 <= |before| <= env.maxLen && Mutated(env, before, cs, after)
    ensures 1 <= |after| <= env.maxLen
    decreases |cs|
  {
    hide Legal, Effect;
    if cs != [] {
      EffectKeepsBounds(env, cs[0], before);
      RunKeepsBounds(env, Effect(env, cs[0], before), cs[1..], after);
    }
  }

  lemma {:induction false} MutatedSnoc(env: Env, before: seq<Byte>, cs: seq<Choice>, mid: seq<Byte>, c: Choice)
    requires Mutated(env, before, cs, mid) && Legal(env, c, mid)
    ensures Mutated(env, before, cs + [c], Effect(env, c, mid))
    decreases |cs|
  {
    hide Legal, Effect;
    if cs == [] {
      assert (cs + [c])[1..] == [];
    } else {
      assert (cs + [c])[1..] == cs[1..] + [c];
      MutatedSnoc(env, Effect(env, cs[0], before), cs[1..], mid, c);
    }
  }

  function Five<T>(s1: seq<T>, s2: seq<T>, s3: seq<T>, s4: seq<T>, s5: seq<T>): seq<T> {
    s1 + s2 + s3 + s4 + s5
  }

  lemma CutFive(s: seq<Byte>, a: nat, b: nat, n: nat)
    requires a + n <= b && b + n <= |s|
    ensures s == Five(s[..a], s[a..a + n], s[a + n..b], s[b..b + n], s[b + n..])
  {
  }

  lemma ExchangeFive(s1: seq<Byte>, s2: seq<Byte>, s3: seq<Byte>, s4: seq<Byte>, s5: seq<Byte>)
    requires |s2| == |s4|
    ensures var r := Five(s1, s2, s3, s4, s5);
            var a, b, n := |s1|, |s1| + |s2| + |s3|, |s2|;
            b + n <= |r| && ExchangeBlocks(r, a, b, n) == Five(s1, s4, s3, s2, s5)
  {
    var r := s1 + s2 + s3 + s4 + s5;
    var a, b, n := |s1|, |s1| + |s2| + |s3|, |s2|;
    assert r[..a] == s1 && r[a..a + n] == s2 && r[a + n..b] == s3 && r[b..b + n] == s4 && r[b + n..] == s5;
  }

  lemma BagFive<T>(s1: seq<T>, s2: seq<T>, s3: seq<T>, s4: seq<T>, s5: seq<T>)
    ensures multiset(Five(s1, s2, s3, s4, s5)) == multiset(Five(s1, s4, s3, s2, s5))
  {
    SumFive(multiset(s1), multiset(s2), multiset(s3), multiset(s4), multiset(s5));
  }

  lemma SumFive<T>(a: multiset<T>, b: multiset<T>, c: multiset<T>, d: multiset<T>, e: multiset<T>)
    ensures a + b + c + d + e == a + d + c + b + e
  {
  }

  /** Exchanging two blocks keeps every byte of the test case, and doing it twice changes nothing. */
  lemma ExchangeKeepsBytes(s: seq<Byte>, a: nat, b: nat, n: nat)
    requires a + n <= b && b + n <= |s|
    ensures multiset(ExchangeBlocks(s, a, b, n)) == multiset(s)
    ensures ExchangeBlocks(ExchangeBlocks(s, a, b, n), a, b, n) == s
  {
    hide ExchangeBlocks, Five;
    var s1, s2, s3, s4, s5 := s[..a], s[a..a + n], s[a + n..b], s[b..b + n], s[b + n..];
    CutFive(s, a, b, n);
    ExchangeFive(s1, s2, s3, s4, s5);
    ExchangeFive(s1, s4, s3, s2, s5);
    BagFive(s1, s2, s3, s4, s5);
  }
}
