/** The number arithmetic of MUT_ASCIINUM: parsing a run of digits and the eight strategies. */
module HavocNumber {
  import opened Words

  const INT64_MAX: int := 0x7FFF_FFFF_FFFF_FFFF
  const INT64_MIN: int := -0x8000_0000_0000_0000

  /** The character '-'. */
  function Minus(): Byte {
    FromNum(45)
  }

  predicate IsDigit(b: Byte) {
    48 <= Num(b) <= 57
  }

  function DigitOf(b: Byte): (d: nat)
    requires IsDigit(b)
    ensures d < 10
  {
    Num(b) - 48
  }

  /** The decimal value of a run of digits. */
  function Decimal(run: seq<Byte>): nat
    requires forall k | 0 <= k < |run| :: IsDigit(run[k])
  {
    if run == [] then 0 else 10 * Decimal(run[..|run| - 1]) + DigitOf(run[|run| - 1])
  }

  /** C division truncates toward zero. */
  function Truncate(v: int, d: int): int
    requires d > 0
  {
    if v >= 0 then v / d else -(-v / d)
  }

  lemma FirstDigit(run: seq<Byte>)
    requires run != [] && forall k | 0 <= k < |run| :: IsDigit(run[k])
    ensures Decimal(run[..1]) == DigitOf(run[0])
  {
    hide IsDigit, DigitOf;
    assert run[..1][..0] == [];
  }

  lemma NextDigit(run: seq<Byte>, i: nat)
    requires i < |run| && forall k | 0 <= k < |run| :: IsDigit(run[k])
    ensures Decimal(run[..i + 1]) == 10 * Decimal(run[..i]) + DigitOf(run[i])
  {
    hide IsDigit, DigitOf;
    assert run[..i + 1][..i] == run[..i];
  }

  /** The loop that parses the run; it cuts the run short before the value leaves 64 bits. */
  method Parse(run: seq<Byte>) returns (val: int, used: nat)
    requires run != [] && forall k | 0 <= k < |run| :: IsDigit(run[k])
    ensures 1 <= used <= |run|
    ensures val == Decimal(run[..used]) && 0 <= val <= INT64_MAX
    ensures used < |run| ==> Decimal(run[..used + 1]) > INT64_MAX
  {
    hide IsDigit, DigitOf, Decimal;
    val := DigitOf(run[0]);
    FirstDigit(run);
    used := |run|;
    for i := 1 to |run|
      invariant val == Decimal(run[..i]) && 0 <= val <= INT64_MAX
      invariant used == |run|
    {
      var digit := DigitOf(run[i]);
      NextDigit(run, i);
      if val > INT64_MAX / 10 || val * 10 > INT64_MAX - digit {
        used := i;
        return;
      }
      val := val * 10 + digit;
    }
  }

  /** Dropping the last digit divides by ten. */
  lemma DropDigit(run: seq<Byte>)
    requires run != [] && forall k | 0 <= k < |run| :: IsDigit(run[k])
    ensures Decimal(run) / 10 == Decimal(run[..|run| - 1])
    ensures Decimal(run) >= 10 ==> |run| >= 2
  {
    if |run| == 1 {
      assert run[..0] == [];
    }
  }

  /**
   The strategy switch. The flag says whether `val /= 10; --off2` was executed; `r` is the drawn
   number that the strategies 4, 5 and 6 use.
   */
  function Strategy(strat: nat, val: int, r: nat): (res: (int, bool))
    requires strat < 8
  {
    match strat
    case 0 => if val == INT64_MAX then (Truncate(val, 10) + 1, true) else (val + 1, false)
    case 1 => if val == INT64_MIN then (Truncate(val, 10) - 1, true) else (val - 1, false)
    case 2 => if val > INT64_MAX / 2 || val < Truncate2(INT64_MIN) then (Truncate(val, 10) * 2, true) else (val * 2, false)
    case 3 => (Truncate(val, 2), false)
    case 4 => (r, false)
    case 5 => if val > INT64_MAX - 256 then (Truncate(val, 10) + r, true) else (val + r, false)
    case 6 => if val < INT64_MIN + 256 then (Truncate(val, 10) - r, true) else (val - r, false)
    case 7 => (-val - 1, false)
  }

  function Truncate2(v: int): int {
    Truncate(v, 2)
  }

  /** The numbers that strategy 4, 5 or 6 can draw for this value. */
  predicate Drawn(strat: nat, val: int, r: nat) {
    if strat == 4 then (if 0 < val < 0x19999999 then r < val * 10 else r < 256) else r < 256
  }

  /** `val` is the run with or without a minus sign in front of it. */
  ghost predicate SignedRun(run: seq<Byte>, val: int)
    requires forall k | 0 <= k < |run| :: IsDigit(run[k])
  {
    val == Decimal(run) || val == -(Decimal(run) as int)
  }

  /**
   Every strategy stays within signed 64 bits, and when it shortens the run, the divided value is
   exactly the shortened run, which still has a digit.
   */
  lemma StrategyInRange(run: seq<Byte>, val: int, strat: nat, r: nat)
    requires run != [] && forall k | 0 <= k < |run| :: IsDigit(run[k])
    requires SignedRun(run, val) && Decimal(run) <= INT64_MAX && strat < 8 && Drawn(strat, val, r)
    ensures INT64_MIN <= Strategy(strat, val, r).0 <= INT64_MAX
    ensures Strategy(strat, val, r).1 ==> |run| >= 2 && SignedRun(run[..|run| - 1], Truncate(val, 10))
  {
    hide Decimal;
    DropDigit(run);
  }

  predicate Int64(v: int) {
    INT64_MIN <= v <= INT64_MAX
  }

  /**
   What the strategies do. 0, 1 and 2 go one up, one down and double, and shorten the number exactly
   when that would leave 64 bits; 3 halves toward zero; 5 and 6 go up and down by the drawn number away
   from the ends; 7 is the 64-bit complement.
   */
  lemma StrategyMeans(strat: nat, val: int, r: nat)
    requires strat < 8 && Int64(val) && Drawn(strat, val, r)
    ensures strat == 0 ==> (Strategy(0, val, r).1 <==> !Int64(val + 1))
    ensures strat == 1 ==> (Strategy(1, val, r).1 <==> !Int64(val - 1))
    ensures strat == 2 ==> (Strategy(2, val, r).1 <==> !Int64(2 * val))
    ensures strat == 5 && val + 255 < INT64_MAX ==> Strategy(5, val, r).0 - val == r && !Strategy(5, val, r).1
    ensures strat == 6 && val - 255 > INT64_MIN ==> val - Strategy(6, val, r).0 == r && !Strategy(6, val, r).1
    ensures strat == 3 ==> var h := Strategy(3, val, r).0;
      (val >= 0 ==> 0 <= 2 * h <= val <= 2 * h + 1) && (val < 0 ==> 2 * h - 1 <= val <= 2 * h <= 0)
    ensures strat == 4 ==> 0 <= Strategy(4, val, r).0 < 10 * val || Strategy(4, val, r).0 < 256
    ensures strat == 7 ==> Strategy(7, val, r).0 % TWO64 == TWO64 - 1 - val % TWO64
  {
  }

  /** Up and down undo each other, halving undoes doubling, and the complement is its own inverse. */
  lemma StrategiesInvert(val: int, r: nat)
    requires Int64(val) && r < 256
    ensures Int64(val + 1) ==> Strategy(0, val, r).0 > val && Strategy(1, Strategy(0, val, r).0, r).0 == val
    ensures Int64(val - 1) ==> Strategy(1, val, r).0 < val && Strategy(0, Strategy(1, val, r).0, r).0 == val
    ensures Int64(2 * val) ==> Strategy(3, Strategy(2, val, r).0, r).0 == val
    ensures val + 512 < INT64_MAX && val - 512 > INT64_MIN ==> Strategy(6, Strategy(5, val, r).0, r).0 == val
    ensures Strategy(7, Strategy(7, val, r).0, r).0 == val
  {
  }

  // ---------- Text ----------

  function DigitByte(d: nat): Byte
    requires d < 10
  {
    FromNum(48 + d)
  }

  /** The decimal digits of `n`. */
  function Digits(n: nat): (s: seq<Byte>)
    ensures |s| >= 1
  {
    if n < 10 then [DigitByte(n)] else Digits(n / 10) + [DigitByte(n % 10)]
  }

  /** "%d" of a signed value. */
  function Text(v: int): (s: seq<Byte>)
    ensures |s| >= 1
  {
    if v < 0 then [Minus()] + Digits(-v) else Digits(v)
  }

  /** snprintf with the size of a pointer keeps at most seven characters. */
  function PointerSized(s: seq<Byte>): (t: seq<Byte>)
    requires |s| >= 1
    ensures 1 <= |t| <= 7 && t <= s
  {
    if |s| <= 7 then s else s[..7]
  }

  predicate AllDigits(s: seq<Byte>) {
    forall k | 0 <= k < |s| :: IsDigit(s[k])
  }

  /** Digits, with or without a minus sign in front. */
  predicate IsNumber(t: seq<Byte>) {
    t != [] && if t[0] == Minus() then AllDigits(t[1..]) else AllDigits(t)
  }

  /** The value that a text spells. */
  function ReadText(t: seq<Byte>): int
    requires IsNumber(t)
  {
    if t[0] == Minus() then -(Decimal(t[1..]) as int) else Decimal(t)
  }

  function Power10(k: nat): (p: nat)
    ensures p >= 1
  {
    if k == 0 then 1 else 10 * Power10(k - 1)
  }

  lemma {:induction false} DecimalBound(run: seq<Byte>)
    requires AllDigits(run)
    ensures Decimal(run) < Power10(|run|)
  {
    hide IsDigit, DigitOf;
    if run != [] {
      DecimalBound(run[..|run| - 1]);
    }
  }

  /** The digits of a number spell it, and there are as many as its size needs. */
  lemma {:induction false} DigitsSpell(n: nat)
    ensures AllDigits(Digits(n)) && Decimal(Digits(n)) == n
    ensures |Digits(n)| == 1 || Power10(|Digits(n)| - 1) <= n
  {
    hide DigitByte, DigitOf, IsDigit;
    if n < 10 {
      assert Digits(n)[..0] == [];
      DigitValue(n);
    } else {
      DigitsSpell(n / 10);
      DigitValue(n % 10);
      assert Digits(n)[..|Digits(n)| - 1] == Digits(n / 10);
    }
  }

  lemma {:induction false} PowerGrows(a: nat, b: nat)
    requires a <= b
    ensures Power10(a) <= Power10(b)
  {
    if a < b {
      PowerGrows(a, b - 1);
    }
  }

  lemma DigitsFit(n: nat, k: nat)
    requires k >= 1
    ensures |Digits(n)| <= k <==> n < Power10(k)
  {
    hide Digits, Decimal, Power10, AllDigits;
    var d := Digits(n);
    DigitsSpell(n);
    DecimalBound(d);
    if |d| <= k {
      PowerGrows(|d|, k);
    } else {
      PowerGrows(k, |d| - 1);
    }
  }

  /** The first digits of a number that has more spell a smaller number. */
  lemma CutIsSmaller(n: nat, k: nat)
    requires 1 <= k < |Digits(n)|
    ensures AllDigits(Digits(n)[..k]) && Decimal(Digits(n)[..k]) < Power10(k) <= n
  {
    hide Digits, Decimal, Power10, IsDigit;
    DigitsSpell(n);
    DigitsFit(n, k);
    DecimalBound(Digits(n)[..k]);
  }

  lemma Powers()
    ensures Power10(6) == 1_000_000 && Power10(7) == 10_000_000
  {
  }

  lemma NotMinus(s: seq<Byte>)
    requires s != [] && AllDigits(s)
    ensures s[0] != Minus()
  {
    hide Num, FromNum;
    NumOfFromNum(45);
  }

  /** What is stored reads back as the number exactly when it has at most seven characters. */
  lemma StoredNumber(v: int)
    ensures IsNumber(PointerSized(Text(v)))
    ensures ReadText(PointerSized(Text(v))) == v <==> -1_000_000 < v < 10_000_000
  {
    hide Digits, Decimal, Power10, AllDigits;
    Powers();
    var t := PointerSized(Text(v));
    if v < 0 {
      var d := Digits(-v);
      DigitsSpell(-v);
      DigitsFit(-v, 6);
      if |d| > 6 {
        CutIsSmaller(-v, 6);
        assert t[1..] == d[..6];
      } else {
        assert t[1..] == d;
      }
    } else {
      var d := Digits(v);
      DigitsSpell(v);
      DigitsFit(v, 7);
      NotMinus(d);
      if |d| > 7 {
        CutIsSmaller(v, 7);
        NotMinus(d[..7]);
      }
    }
  }

  /** The eighth digit is lost. */
  lemma TruncatedNumber()
    ensures PointerSized(Text(12345678)) == Digits(1234567)
    ensures IsNumber(Digits(1234567)) && ReadText(Digits(1234567)) == 1234567
  {
    hide Decimal, DigitByte, IsDigit, AllDigits;
    var d := Digits(1234567);
    assert Digits(12345678) == d + [DigitByte(8)];
    DigitsSpell(1234567);
    Powers();
    SevenDigits();
    NotMinus(d);
  }

  lemma SevenDigits()
    ensures |Digits(1234567)| == 7
  {
    hide DigitByte;
    assert |Digits(123)| == 3;
    assert |Digits(12345)| == 5;
  }

  lemma DigitValue(d: nat)
    requires d < 10
    ensures IsDigit(DigitByte(d)) && DigitOf(DigitByte(d)) == d
  {
    hide Num, FromNum;
    NumOfFromNum(48 + d);
  }

  lemma TenTimes(n: nat, v: nat)
    ensures 10 * (Power10(n) * v) == Power10(n + 1) * v
  {
  }

  lemma {:induction false} DecimalConcat(x: seq<Byte>, y: seq<Byte>)
    requires AllDigits(x) && AllDigits(y)
    ensures AllDigits(x + y) && Decimal(x + y) == Power10(|y|) * Decimal(x) + Decimal(y)
  {
    hide IsDigit, DigitOf;
    if y == [] {
      assert x + y == x;
    } else {
      var n := |y| - 1;
      DecimalConcat(x, y[..n]);
      assert (x + y)[..|x| + n] == x + y[..n];
      TenTimes(n, Decimal(x));
    }
  }

  /** The last digits of a number spell its remainder. */
  lemma SuffixIsRemainder(run: seq<Byte>, k: nat)
    requires AllDigits(run) && k <= |run|
    ensures AllDigits(run[k..]) && Decimal(run[k..]) == Decimal(run) % Power10(|run| - k)
  {
    hide IsDigit, Decimal, Power10;
    var x, y := run[..k], run[k..];
    assert run == x + y;
    DecimalConcat(x, y);
    DecimalBound(y);
    var p, v := Power10(|y|), Decimal(run);
    assert v == p * (v / p) + v % p;
    Copies(p, Decimal(y), Decimal(x), v % p, v / p);
  }
}
