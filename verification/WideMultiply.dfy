/** The two portable 64x64 to 128 bit multiplications, xxHash's and t1ha's. */
module WideMultiply {
  import opened Words
  import PowerOfTwo

  /** 64-bit unsigned addition and left shift by 32; both drop what does not fit. */
  function Add64(a: nat, b: nat): (r: nat)
    ensures r < TWO64
  {
    (a + b) % TWO64
  }

  function Shl32(a: nat): (r: nat)
    ensures r < TWO64
  {
    a % TWO32 * TWO32
  }

  function Low32(a: nat): (r: nat)
    ensures r < TWO32
  {
    a % TWO32
  }

  function High32(a: nat): nat {
    a / TWO32
  }

  /** mul_32x32_64. */
  function Mul32(a: nat, b: nat): nat {
    a * b
  }

  datatype Wide = Wide(low: nat, high: nat)

  /** The 128-bit number of the two halves. */
  function Number(w: Wide): nat {
    w.low + w.high * TWO64
  }

  /** The four cross products of the 32-bit halves. */
  datatype Cross = Cross(ll: nat, hl: nat, lh: nat, hh: nat)

  function CrossProducts(a: nat, b: nat): Cross {
    Cross(Low32(a) * Low32(b), High32(a) * Low32(b), Low32(a) * High32(b), High32(a) * High32(b))
  }

  const MAXPROD: nat := (TWO32 - 1) * (TWO32 - 1)

  ghost predicate Small(c: Cross) {
    c.ll <= MAXPROD && c.hl <= MAXPROD && c.lh <= MAXPROD && c.hh <= MAXPROD
  }

  /** XXH_mult64to128, portable branch. */
  function GradeSchool(c: Cross): Wide {
    var cross := Add64(Add64(High32(c.ll), Low32(c.hl)), c.lh);
    var upper := Add64(Add64(High32(c.hl), High32(cross)), c.hh);
    Wide(PowerOfTwo.Or(Shl32(cross), Low32(c.ll)), upper)
  }

  function XxhMultiply(a: nat, b: nat): Wide {
    GradeSchool(CrossProducts(a, b))
  }

  /** add64carry_first: the wrapped sum and whether it wrapped. */
  function AddCarry(base: nat, addend: nat): (nat, nat) {
    var sum := Add64(base, addend);
    (sum, if sum < addend then 1 else 0)
  }

  /** mul_64x64_128, portable branch: two carry chains. */
  function CarryChains(c: Cross): Wide {
    var (l1, c1) := AddCarry(c.ll, Shl32(c.hl));
    var h1 := Add64(Add64(c.hh, High32(c.hl)), c1);
    var (l2, c2) := AddCarry(l1, Shl32(c.lh));
    var h2 := Add64(Add64(h1, High32(c.lh)), c2);
    Wide(l2, h2)
  }

  function T1haMultiply(a: nat, b: nat): Wide {
    CarryChains(CrossProducts(a, b))
  }

  /** The bits that `|` joins are disjoint. */
  lemma DisjointOr(cross: nat, lo: nat)
    ensures PowerOfTwo.Or(Shl32(cross), Low32(lo)) == Shl32(cross) + Low32(lo) < TWO64
  {
    hide PowerOfTwo.Pow2, PowerOfTwo.Or;
    PowerOfTwo.Pow64();
    PowerOfTwo.OrIsSum(Low32(cross), Low32(lo), 32);
  }

  lemma Monotone(x: nat, y: nat, bound: nat)
    requires y <= bound
    ensures x * y <= x * bound
  {
    assert x * (bound - y) >= 0;
  }

  lemma ProductBound(x: nat, y: nat)
    requires x < TWO32 && y < TWO32
    ensures x * y <= MAXPROD
  {
    Monotone(x, y, TWO32 - 1);
  }

  /** Division with remainder, and the shifted number. */
  lemma Halves(a: nat)
    ensures a == High32(a) * TWO32 + Low32(a)
    ensures a * TWO32 == Shl32(a) + High32(a) * TWO64
  {
  }

  lemma Expand(ah: nat, al: nat, bh: nat, bl: nat)
    ensures (al + ah * TWO32) * (bl + bh * TWO32)
         == al * bl + (ah * bl + al * bh) * TWO32 + (ah * bh) * TWO64
  {
    calc {
      (al + ah * TWO32) * (bl + bh * TWO32);
      al * (bl + bh * TWO32) + ah * TWO32 * (bl + bh * TWO32);
      al * bl + al * (bh * TWO32) + (ah * TWO32 * bl + ah * TWO32 * (bh * TWO32));
      { assert al * (bh * TWO32) == (al * bh) * TWO32; assert ah * TWO32 * bl == (ah * bl) * TWO32; }
      al * bl + (al * bh) * TWO32 + ((ah * bl) * TWO32 + ah * TWO32 * (bh * TWO32));
      { assert ah * TWO32 * (bh * TWO32) == (ah * bh) * TWO64; }
      al * bl + (al * bh) * TWO32 + ((ah * bl) * TWO32 + (ah * bh) * TWO64);
    }
  }

  /** The cross products add up to the product, and each is small enough for what follows. */
  lemma CrossSum(a: nat, b: nat)
    requires a < TWO64 && b < TWO64
    ensures var c := CrossProducts(a, b);
            Small(c) && a * b == c.ll + (c.hl + c.lh) * TWO32 + c.hh * TWO64
  {
    var ah, al, bh, bl := High32(a), Low32(a), High32(b), Low32(b);
    assert a == al + ah * TWO32 && b == bl + bh * TWO32;
    ProductBound(al, bl);
    ProductBound(ah, bl);
    ProductBound(al, bh);
    ProductBound(ah, bh);
    Expand(ah, al, bh, bl);
  }

  /** No intermediate sum of the grade-school form loses a carry. */
  lemma GradeSchoolExact(c: Cross)
    requires Small(c) && c.ll + (c.hl + c.lh) * TWO32 + c.hh * TWO64 < TWO64 * TWO64
    ensures High32(c.ll) + Low32(c.hl) + c.lh < TWO64
    ensures var cross := High32(c.ll) + Low32(c.hl) + c.lh; High32(c.hl) + High32(cross) + c.hh < TWO64
    ensures Number(GradeSchool(c)) == c.ll + (c.hl + c.lh) * TWO32 + c.hh * TWO64
  {
    hide Low32, High32, Add64, Shl32, PowerOfTwo.Or;
    var cross := High32(c.ll) + Low32(c.hl) + c.lh;
    var upper := High32(c.hl) + High32(cross) + c.hh;
    Halves(c.ll);
    Halves(c.hl);
    Halves(cross);
    assert Low32(c.ll) + Low32(cross) * TWO32 + upper * TWO64 == c.ll + (c.hl + c.lh) * TWO32 + c.hh * TWO64;
    NoWrap(High32(c.ll), Low32(c.hl));
    NoWrap(High32(c.ll) + Low32(c.hl), c.lh);
    NoWrap(High32(c.hl), High32(cross));
    NoWrap(High32(c.hl) + High32(cross), c.hh);
    ShiftIsLow(cross);
    DisjointOr(cross, c.ll);
  }

  lemma NoWrap(a: nat, b: nat)
    requires a + b < TWO64
    ensures Add64(a, b) == a + b
  {
  }

  lemma ShiftIsLow(a: nat)
    ensures Shl32(a) == Low32(a) * TWO32
  {
  }

  /** A wrapped 64-bit sum below its addend has carried exactly once. */
  lemma CarryExact(base: nat, addend: nat)
    requires base < TWO64 && addend < TWO64
    ensures var (sum, carry) := AddCarry(base, addend); sum + carry * TWO64 == base + addend && carry <= 1
  {
  }

  lemma CarryChainsExact(c: Cross)
    requires Small(c) && c.ll + (c.hl + c.lh) * TWO32 + c.hh * TWO64 < TWO64 * TWO64
    ensures Number(CarryChains(c)) == c.ll + (c.hl + c.lh) * TWO32 + c.hh * TWO64
  {
    hide Low32, High32, Add64, Shl32, AddCarry;
    var (l1, c1) := AddCarry(c.ll, Shl32(c.hl));
    CarryExact(c.ll, Shl32(c.hl));
    CarryIsSum(c.ll, Shl32(c.hl));
    var (l2, c2) := AddCarry(l1, Shl32(c.lh));
    CarryExact(l1, Shl32(c.lh));
    Halves(c.hl);
    Halves(c.lh);
    var h1 := c.hh + High32(c.hl) + c1;
    var h2 := h1 + High32(c.lh) + c2;
    assert l2 + h2 * TWO64 == c.ll + (c.hl + c.lh) * TWO32 + c.hh * TWO64;
    NoWrap(c.hh, High32(c.hl));
    NoWrap(c.hh + High32(c.hl), c1);
    NoWrap(h1, High32(c.lh));
    NoWrap(h1 + High32(c.lh), c2);
  }

  lemma CarryIsSum(base: nat, addend: nat)
    ensures AddCarry(base, addend).0 < TWO64
  {
  }

  lemma ProductFits(a: nat, b: nat)
    requires a < TWO64 && b < TWO64
    ensures a * b < TWO64 * TWO64
  {
    assert a * b <= a * TWO64 < TWO64 * TWO64 || a == 0;
  }

  /** Both programs return the exact 128-bit product, hence the same halves. */
  lemma BothExact(a: nat, b: nat)
    requires a < TWO64 && b < TWO64
    ensures Number(XxhMultiply(a, b)) == a * b == Number(T1haMultiply(a, b))
    ensures XxhMultiply(a, b) == T1haMultiply(a, b)
  {
    hide CrossProducts, GradeSchool, CarryChains;
    CrossSum(a, b);
    ProductFits(a, b);
    GradeSchoolExact(CrossProducts(a, b));
    CarryChainsExact(CrossProducts(a, b));
    LowHalves(CrossProducts(a, b));
    HalvesUnique(XxhMultiply(a, b), T1haMultiply(a, b));
  }

  lemma LowHalves(c: Cross)
    ensures GradeSchool(c).low < TWO64 && CarryChains(c).low < TWO64
  {
    hide PowerOfTwo.Or;
    DisjointOr(Add64(Add64(High32(c.ll), Low32(c.hl)), c.lh), c.ll);
  }

  lemma HalvesUnique(v: Wide, w: Wide)
    requires v.low < TWO64 && w.low < TWO64 && Number(v) == Number(w)
    ensures v == w
  {
  }
}
