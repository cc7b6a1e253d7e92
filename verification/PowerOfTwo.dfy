/** alloc-inl.h next_pow2 (a shift-and-or trick) and afl-fuzz.h next_p2 (a loop). */
module PowerOfTwo {
  import opened Words

  function Pow2(k: nat): (p: nat)
    ensures p >= 1
  {
    if k == 0 then 1 else 2 * Pow2(k - 1)
  }

  /** `p` is the smallest power of two that is at least `v`. */
  ghost predicate RoundedTo(v: nat, p: nat) {
    exists k: nat :: p == Pow2(k) && v <= p && (k > 0 ==> Pow2(k - 1) < v)
  }

  // Bitwise operations of C on unsigned numbers.

  function Or(x: nat, y: nat): nat {
    if x == 0 then y
    else if y == 0 then x
    else (if x % 2 == 1 || y % 2 == 1 then 1 else 0) + 2 * Or(x / 2, y / 2)
  }

  function Shr(x: nat, s: nat): nat {
    if s == 0 then x else Shr(x / 2, s - 1)
  }

  predicate Bit(x: nat, k: nat) {
    if k == 0 then x % 2 == 1 else Bit(x / 2, k - 1)
  }

  /** The number of binary digits of `x`. */
  function Digits(x: nat): nat {
    if x == 0 then 0 else 1 + Digits(x / 2)
  }

  function Fold(x: nat, s: nat): nat {
    Or(x, Shr(x, s))
  }

  function Smear(x: nat): nat {
    Fold(Fold(Fold(Fold(Fold(x, 1), 2), 4), 8), 16)
  }

  /** next_pow2 on 64-bit sizes; the subtraction and the addition wrap. */
  function NextPow2(v: nat): nat
    requires v < TWO64
  {
    (Smear((v + TWO64 - 1) % TWO64) + 1) % TWO64
  }

  /** One of the `w` bits of `x` from bit `k` upward is set. */
  ghost predicate Window(x: nat, k: nat, w: nat) {
    exists i :: k <= i < k + w && Bit(x, i)
  }

  /** No 32 zero bits in a row lie below a set bit of `x`. */
  ghost predicate NoGap(x: nat) {
    forall k: nat :: k < Digits(x) ==> Window(x, k, 32)
  }

  lemma {:induction false} BitOfOr(x: nat, y: nat, k: nat)
    ensures Bit(Or(x, y), k) <==> Bit(x, k) || Bit(y, k)
  {
    if x == 0 {
      ZeroBits(k);
    } else if y == 0 {
      ZeroBits(k);
    } else if k > 0 {
      BitOfOr(x / 2, y / 2, k - 1);
    }
  }

  /** Or of a multiple of a power of two and a smaller number is their sum. */
  lemma {:induction false} OrIsSum(a: nat, b: nat, k: nat)
    requires b < Pow2(k)
    ensures Or(a * Pow2(k), b) == a * Pow2(k) + b
  {
    if k > 0 {
      var h := a * Pow2(k - 1);
      assert a * Pow2(k) == 2 * h;
      OrIsSum(a, b / 2, k - 1);
      OrHalves(h, b);
    }
  }

  lemma OrHalves(h: nat, b: nat)
    requires Or(h, b / 2) == h + b / 2
    ensures Or(2 * h, b) == 2 * h + b
  {
  }

  lemma {:induction false} ZeroBits(k: nat)
    ensures !Bit(0, k)
  {
    if k > 0 {
      ZeroBits(k - 1);
    }
  }

  lemma {:induction false} BitOfShift(x: nat, s: nat, k: nat)
    ensures Bit(Shr(x, s), k) == Bit(x, k + s)
  {
    if s > 0 {
      BitOfShift(x / 2, s - 1, k);
    }
  }

  lemma {:induction false} DigitsOfOr(x: nat, y: nat)
    requires Digits(y) <= Digits(x)
    ensures Digits(Or(x, y)) == Digits(x) && Or(x, y) >= x
  {
    if x > 0 && y > 0 {
      DigitsOfOr(x / 2, y / 2);
    }
  }

  lemma {:induction false} DigitsOfShift(x: nat, s: nat)
    ensures Digits(Shr(x, s)) <= Digits(x)
  {
    if s > 0 {
      DigitsOfShift(x / 2, s - 1);
    }
  }

  lemma FoldKeeps(x: nat, s: nat)
    ensures Digits(Fold(x, s)) == Digits(x) && Fold(x, s) >= x
  {
    DigitsOfShift(x, s);
    DigitsOfOr(x, Shr(x, s));
  }

  lemma SmearKeeps(x: nat)
    ensures Digits(Smear(x)) == Digits(x) && Smear(x) >= x
  {
    hide Fold, Digits;
    var a := Fold(x, 1);
    var b := Fold(a, 2);
    var c := Fold(b, 4);
    var d := Fold(c, 8);
    FoldKeeps(x, 1);
    FoldKeeps(a, 2);
    FoldKeeps(b, 4);
    FoldKeeps(c, 8);
    FoldKeeps(d, 16);
  }

  /** `y` has a bit exactly where `x` has one among the next `w`. */
  ghost predicate Widened(x: nat, y: nat, w: nat) {
    forall k: nat :: Bit(y, k) <==> Window(x, k, w)
  }

  lemma FoldWidens(x: nat, y: nat, w: nat)
    requires Widened(x, y, w)
    ensures Widened(x, Fold(y, w), w + w)
  {
    forall k: nat ensures Bit(Fold(y, w), k) <==> Window(x, k, w + w) {
      BitOfOr(y, Shr(y, w), k);
      BitOfShift(y, w, k);
      assert Bit(Fold(y, w), k) <==> Window(x, k, w) || Window(x, k + w, w);
      hide Bit, Fold;
      if Window(x, k, w + w) {
        var i :| k <= i < k + (w + w) && Bit(x, i);
        assert i < k + w || k + w <= i < k + w + w;
      }
    }
  }

  /** A bit of the smeared number is set when one of the 32 from it upward was. */
  lemma SmearWindow(x: nat)
    ensures Widened(x, Smear(x), 32)
  {
    assert Widened(x, x, 1) by {
      forall k: nat ensures Bit(x, k) <==> Window(x, k, 1) {
        hide Bit;
        if Bit(x, k) {
          assert k <= k < k + 1;
        }
      }
    }
    hide Fold, Widened;
    var a := Fold(x, 1);
    var b := Fold(a, 2);
    var c := Fold(b, 4);
    var d := Fold(c, 8);
    FoldWidens(x, x, 1);
    FoldWidens(x, a, 2);
    FoldWidens(x, b, 4);
    FoldWidens(x, c, 8);
    FoldWidens(x, d, 16);
  }

  lemma {:induction false} DigitsBound(x: nat)
    ensures x < Pow2(Digits(x)) && (x > 0 ==> Pow2(Digits(x) - 1) <= x)
  {
    if x > 0 {
      DigitsBound(x / 2);
    }
  }

  ghost predicate Full(x: nat) {
    forall k: nat :: k < Digits(x) ==> Bit(x, k)
  }

  lemma FullHalf(x: nat)
    requires x > 0
    ensures Full(x) <==> x % 2 == 1 && Full(x / 2)
  {
    var h := x / 2;
    if Full(x) {
      assert Bit(x, 0);
      forall k: nat | k < Digits(h) ensures Bit(h, k) {
        assert Bit(x, k + 1);
      }
    }
    if x % 2 == 1 && Full(h) {
      forall k: nat | k < Digits(x) ensures Bit(x, k) {
        if k > 0 {
          assert Bit(h, k - 1);
        }
      }
    }
  }

  /** A number is one less than a power of two exactly when all its digits are ones. */
  lemma {:induction false} AllOnes(x: nat)
    ensures x + 1 == Pow2(Digits(x)) <==> Full(x)
  {
    if x > 0 {
      hide Full;
      FullHalf(x);
      AllOnes(x / 2);
      assert Pow2(Digits(x)) == 2 * Pow2(Digits(x / 2));
    }
  }

  lemma {:induction false} PowMonotone(a: nat, b: nat)
    requires a < b
    ensures 2 * Pow2(a) <= Pow2(b)
  {
    if a + 1 < b {
      PowMonotone(a, b - 1);
    }
  }

  lemma Pow64()
    ensures Pow2(32) == TWO32 && Pow2(63) == TWO64 / 2 && Pow2(64) == TWO64
  {
    assert Pow2(8) == 0x100;
    assert Pow2(16) == 0x1_0000;
    assert Pow2(24) == 0x100_0000;
    assert Pow2(32) == 0x1_0000_0000;
    assert Pow2(40) == 0x100_0000_0000;
    assert Pow2(48) == 0x1_0000_0000_0000;
    assert Pow2(56) == 0x100_0000_0000_0000;
  }

  /** The power that bounds `v` is unique. */
  lemma RoundedUnique(v: nat, p: nat, q: nat)
    requires RoundedTo(v, p) && RoundedTo(v, q)
    ensures p == q
  {
    var j: nat :| p == Pow2(j) && v <= p && (j > 0 ==> Pow2(j - 1) < v);
    var k: nat :| q == Pow2(k) && v <= q && (k > 0 ==> Pow2(k - 1) < v);
    hide Pow2;
    if j < k {
      PowAtMost(j, k - 1);
    } else if k < j {
      PowAtMost(k, j - 1);
    }
  }

  lemma PowAtMost(a: nat, b: nat)
    requires a <= b
    ensures Pow2(a) <= Pow2(b)
  {
    if a < b {
      PowMonotone(a, b);
    }
  }

  lemma DigitsAtMost(x: nat, k: nat)
    requires x < Pow2(k)
    ensures Digits(x) <= k
  {
    hide Pow2, Digits;
    if Digits(x) > k {
      DigitsBound(x);
      assert x > 0 by {
        assert Digits(0) == 0 by { DigitsZero(); }
      }
      PowAtMost(k, Digits(x) - 1);
    }
  }

  lemma DigitsZero()
    ensures Digits(0) == 0
  {
  }

  /** Smearing gives the next power of two less one exactly when no gap is too wide. */
  lemma SmearExact(x: nat)
    ensures x <= Smear(x) < Pow2(Digits(x))
    ensures Smear(x) + 1 == Pow2(Digits(x)) <==> NoGap(x)
  {
    hide Pow2, Digits, Smear, Bit, Window;
    var z := Smear(x);
    SmearKeeps(x);
    SmearWindow(x);
    DigitsBound(z);
    AllOnes(z);
    assert forall k: nat :: Bit(z, k) <==> Window(x, k, 32);
    if NoGap(x) {
      forall k: nat | k < Digits(z) ensures Bit(z, k) {
        assert Window(x, k, 32);
      }
    }
    if z + 1 == Pow2(Digits(x)) {
      forall k: nat | k < Digits(x) ensures Window(x, k, 32) {
        assert Bit(z, k);
      }
    }
  }

  lemma RoundsTo(v: nat)
    requires v > 0
    ensures RoundedTo(v, Pow2(Digits(v - 1)))
  {
    DigitsBound(v - 1);
    DigitsZero();
    hide Pow2, Digits;
    var k := Digits(v - 1);
    assert k > 0 ==> Pow2(k - 1) < v;
  }

  /**
   * The comment on next_pow2 promises the next power of two, or 0 when it does not fit. The code
   * gives that exactly when the argument is not 0 and `v - 1` has no 32 zero bits below a set one.
   */
  lemma NextPow2Exact(v: nat)
    requires v < TWO64
    ensures v <= TWO64 / 2 ==> (RoundedTo(v, NextPow2(v)) <==> v > 0 && NoGap(v - 1))
    ensures v > TWO64 / 2 ==> (NextPow2(v) == 0 <==> NoGap(v - 1))
    ensures NextPow2(v) == 0 || NextPow2(v) >= v
  {
    hide Pow2, Digits, Smear, NoGap;
    Pow64();
    if v == 0 {
      ZeroWraps();
    } else {
      var x := v - 1;
      assert (v + TWO64 - 1) % TWO64 == x;
      SmearExact(x);
      RoundsTo(v);
      DigitsAtMost(x, 64);
      PowAtMost(Digits(x), 64);
      if v <= TWO64 / 2 {
        DigitsAtMost(x, 63);
        PowAtMost(Digits(x), 63);
        assert NextPow2(v) == Smear(x) + 1;
        if RoundedTo(v, NextPow2(v)) {
          RoundedUnique(v, NextPow2(v), Pow2(Digits(x)));
        }
      } else {
        DigitsBound(x);
        if Digits(x) < 64 {
          PowAtMost(Digits(x), 63);
        }
      }
    }
  }

  lemma ZeroWraps()
    ensures NextPow2(0) == 0 && !RoundedTo(0, 0)
  {
    hide Pow2, Smear;
    Pow64();
    var x := TWO64 - 1;
    SmearExact(x);
    DigitsAtMost(x, 64);
    PowAtMost(Digits(x), 64);
    assert (0 + TWO64 - 1) % TWO64 == x;
  }

  /** On 1..2^32 no gap fits. */
  lemma SmallHasNoGap(x: nat)
    requires x < TWO32
    ensures NoGap(x)
  {
    hide Pow2;
    Pow64();
    DigitsAtMost(x, 32);
    forall k: nat | k < Digits(x) ensures Window(x, k, 32) {
      TopBit(x);
      assert k <= Digits(x) - 1 < k + 32;
    }
  }

  lemma {:induction false} TopBit(x: nat)
    requires x > 0
    ensures Bit(x, Digits(x) - 1)
  {
    if x > 1 {
      TopBit(x / 2);
    }
  }

  lemma {:induction false} OneBit(k: nat, i: nat)
    ensures Bit(Pow2(k), i) <==> i == k
  {
    if k == 0 && i > 0 {
      ZeroBits(i - 1);
    } else if k > 0 && i > 0 {
      OneBit(k - 1, i - 1);
    }
  }

  /** Past 2^32 the promise can fail: at 2^33 + 1 the result is not a power of two above it. */
  lemma GapExample()
    ensures !RoundedTo(TWO32 * 2 + 1, NextPow2(TWO32 * 2 + 1))
  {
    var x := TWO32 * 2;
    Pow64();
    assert x == Pow2(33);
    hide Pow2, NextPow2;
    NextPow2Exact(x + 1);
    DigitsBound(x);
    if Digits(x) <= 33 {
      PowAtMost(Digits(x), 33);
    }
    if Window(x, 1, 32) {
      var i :| 1 <= i < 1 + 32 && Bit(x, i);
      OneBit(33, i);
    }
  }

  /** next_p2; `ret <<= 1` drops the top bit. It agrees with next_pow2 exactly where that is right. */
  method NextP2(val: nat) returns (ret: nat)
    requires val <= TWO64 / 2
    ensures RoundedTo(val, ret)
    ensures ret == NextPow2(val) <==> val > 0 && NoGap(val - 1)
    ensures 1 <= val <= TWO32 ==> ret == NextPow2(val)
  {
    hide NextPow2, NoGap;
    ret := 1;
    ghost var k: nat := 0;
    while val > ret
      invariant k <= 63 && ret == Pow2(k) <= TWO64 / 2
      invariant k > 0 ==> Pow2(k - 1) < val
      decreases TWO64 - ret
    {
      Pow64();
      assert k < 63;
      PowAtMost(k + 1, 63);
      ret := 2 * ret % TWO64;
      k := k + 1;
    }
    assert RoundedTo(val, ret);
    LoopAgrees(val, ret);
  }

  lemma LoopAgrees(val: nat, ret: nat)
    requires val <= TWO64 / 2 && RoundedTo(val, ret)
    ensures ret == NextPow2(val) <==> val > 0 && NoGap(val - 1)
    ensures 1 <= val <= TWO32 ==> ret == NextPow2(val)
  {
    hide NextPow2, NoGap, RoundedTo;
    NextPow2Exact(val);
    if RoundedTo(val, NextPow2(val)) {
      RoundedUnique(val, ret, NextPow2(val));
    }
    if 1 <= val <= TWO32 {
      SmallHasNoGap(val - 1);
    }
  }
}
