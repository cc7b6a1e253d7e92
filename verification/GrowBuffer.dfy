/** alloc-inl.h afl_realloc: a buffer that grows to powers of two and is never shrunk. */
module GrowBuffer {
  import opened Words
  import opened PowerOfTwo

  /** AFL_ALLOC_SIZE_OFFSET and INITIAL_GROWTH_SIZE. */
  const HEADER: nat := 8
  const INITIAL: nat := 64

  /** What is asked of realloc for a block of `total` bytes, header included. */
  function NextSize(total: nat): nat
    requires total < TWO64
  {
    if total < INITIAL then INITIAL
    else if NextPow2(total) == 0 then total
    else NextPow2(total)
  }

  lemma NextSizeHolds(total: nat)
    requires total < TWO64
    ensures total <= NextSize(total) < TWO64 && NextSize(total) >= INITIAL
  {
    hide Smear;
    NextPow2Exact(total);
  }

  function Zeros(n: nat): seq<Byte> {
    seq(n, _ => 0)
  }

  /** realloc to `n` bytes and the memset of what is behind the old ones. */
  method Grow(block: array?<Byte>, n: nat) returns (newer: array<Byte>)
    requires block != null ==> block.Length <= n
    ensures fresh(newer) && newer.Length == n
    ensures newer[..] == if block == null then Zeros(n) else block[..] + Zeros(n - block.Length)
  {
    newer := new Byte[n];
    var keep := if block == null then 0 else block.Length;
    forall i | 0 <= i < keep {
      newer[i] := block[i];
    }
    forall i | keep <= i < n {
      newer[i] := 0;
    }
  }

  /** The variable that `buf` points to, with the size kept in front of the bytes. */
  class Buffer {
    var data: array?<Byte>
    var completeSize: nat

    ghost predicate Valid()
      reads this
    {
      if data == null then completeSize == 0
      else HEADER <= completeSize < TWO64 && data.Length == completeSize - HEADER
    }

    /** The usable bytes; none when the pointer is NULL. */
    ghost function Bytes(): seq<Byte>
      reads this, data
    {
      if data == null then [] else data[..]
    }

    constructor ()
      ensures Valid() && data == null
    {
      data := null;
      completeSize := 0;
    }

    /**
     * afl_realloc; `granted` is whether the C library's realloc succeeds. The addition of the
     * header wraps, and only a request that makes it wrap is not met.
     */
    method Realloc(request: nat, granted: bool) returns (r: array?<Byte>)
      requires Valid() && request < TWO64
      modifies this
      ensures Valid() && r == data
      ensures completeSize == After(old(completeSize), request, granted)
      ensures data == null <==>
        if old(completeSize) < Wrap64(request + HEADER) then !granted else old(data) == null
      ensures completeSize == old(completeSize) ==> data == old(data)
      ensures completeSize != old(completeSize) && data != null ==> fresh(data)
      ensures data != null ==> |Bytes()| >= |old(Bytes())|
      ensures data != null ==> Bytes() == old(Bytes()) + Zeros(|Bytes()| - |old(Bytes())|)
      ensures data != null ==> (|Bytes()| >= request <==> request < TWO64 - HEADER)
    {
      var currentSize := if data == null then 0 else completeSize;
      var total := Wrap64(request + HEADER);
      NextSizeHolds(total);
      hide NextSize;
      if currentSize >= total {
        assert Bytes() == old(Bytes()) + Zeros(0);
        return data;
      }
      var nextSize := NextSize(total);
      if !granted {
        data := null;
        completeSize := 0;
        return null;
      }
      data := Grow(data, nextSize - HEADER);
      completeSize := nextSize;
      return data;
    }
  }

  /** complete_size after one call. */
  function After(size: nat, request: nat, granted: bool): nat
    requires request < TWO64
  {
    var total := Wrap64(request + HEADER);
    if size >= total then size else if granted then NextSize(total) else 0
  }

  // What the comment says about NULL.

  /** The comment: NULL is returned, and the buffer freed, for a request below 1 or a failed realloc. */
  predicate NullPromised(size: nat, request: nat, granted: bool)
    requires request < TWO64
  {
    request < 1 || (size < Wrap64(request + HEADER) && !granted)
  }

  /**
   The code returns NULL as promised exactly in these cases: a request of 0 on an empty buffer that
   realloc refuses, and every other request except the one that wraps to 0 on an empty buffer.
   */
  lemma NullAsPromisedIff(size: nat, request: nat, granted: bool)
    requires request < TWO64 && (size == 0 || size >= HEADER)
    ensures (After(size, request, granted) == 0 <==> NullPromised(size, request, granted))
       <==> if request == 0 then size == 0 && !granted else size != 0 || request != TWO64 - HEADER
  {
    var total := Wrap64(request + HEADER);
    NextSizeHolds(total);
    hide NextSize;
    if request < TWO64 - HEADER {
      assert total == request + HEADER;
    } else {
      assert total == request + HEADER - TWO64;
    }
  }

  /** A request of 0 frees nothing: it gives a first block of 56 zero bytes, or the buffer as it is. */
  method RequestNothing(b: Buffer, granted: bool) returns (r: array?<Byte>)
    requires b.Valid()
    modifies b
    ensures b.Valid() && r == b.data
    ensures r == null <==> old(b.data) == null && !granted
    ensures old(b.data) == null && granted ==> r != null && r[..] == Zeros(56)
    ensures old(b.data) != null ==> r == old(b.data) && b.completeSize == old(b.completeSize)
  {
    NextSizeHolds(8);
    r := b.Realloc(0, granted);
    if b.data != null && old(b.data) == null {
      assert b.completeSize == INITIAL;
      assert r[..] == [] + Zeros(56);
    }
  }

  /** On a used buffer the promised NULL does not come. */
  lemma NothingFreed()
    ensures NullPromised(INITIAL, 0, true) && After(INITIAL, 0, true) == INITIAL
  {
  }

  // Growth from a power of two.

  ghost predicate Power(size: nat) {
    exists k: nat :: size == Pow2(k)
  }

  /**
   * From a power of two, growing at least doubles the block exactly when the new total is over
   * twice the old one, or has no wide gap in its bits and the doubled size still fits.
   */
  lemma DoublesIff(size: nat, total: nat)
    requires Power(size) && INITIAL <= size < total < TWO64
    ensures NextSize(total) >= 2 * size <==> total > 2 * size || (NoGap(total - 1) && 2 * size < TWO64)
  {
    hide NoGap, Smear, Digits, NextPow2, Pow2;
    NextPow2Exact(total);
    if total <= 2 * size {
      var k: nat :| size == Pow2(k);
      SameDigits(total - 1, k);
      PowStep(k);
      SmearExact(total - 1);
      RoundedSize(total);
    }
  }

  lemma RoundedSize(total: nat)
    requires 0 < total < TWO64
    ensures NextPow2(total) == (Smear(total - 1) + 1) % TWO64
  {
    assert (total + TWO64 - 1) % TWO64 == total - 1;
  }

  lemma SameDigits(x: nat, k: nat)
    requires Pow2(k) <= x < 2 * Pow2(k)
    ensures Digits(x) == k + 1
  {
    hide Pow2;
    assert Pow2(k + 1) == 2 * Pow2(k) by { PowStep(k); }
    DigitsAtMost(x, k + 1);
    DigitsBound(x);
    if Digits(x) <= k {
      PowAtMost(Digits(x), k);
    }
  }

  lemma PowStep(k: nat)
    ensures Pow2(k + 1) == 2 * Pow2(k)
  {
  }

  // Runs of granted requests.

  /** The smallest power of two, at least INITIAL, that holds `total`. */
  ghost predicate Holds(size: nat, total: nat) {
    if total < INITIAL then size == INITIAL else RoundedTo(total, size)
  }

  lemma NextSizeRounds(total: nat)
    requires total <= TWO32
    ensures Holds(NextSize(total), total)
  {
    hide NoGap, Smear, RoundedTo;
    NextPow2Exact(total);
    if total > 0 {
      SmallHasNoGap(total - 1);
      assert total >= INITIAL ==> RoundedTo(total, NextPow2(total));
      assert total >= INITIAL ==> NextPow2(total) >= total by {
        assert !RoundedTo(total, 0) || total < INITIAL by { NotZero(total); }
      }
    }
  }

  lemma NotZero(v: nat)
    ensures !RoundedTo(v, 0)
  {
  }

  /** complete_size after a run of granted requests on a fresh buffer. */
  function SizeAfter(requests: seq<nat>): nat
    requires forall i :: 0 <= i < |requests| ==> requests[i] < TWO64
  {
    if requests == [] then 0
    else After(SizeAfter(requests[..|requests| - 1]), requests[|requests| - 1], true)
  }

  /** The bytes that realloc moves in that run: the old block at each growth. */
  function Moved(requests: seq<nat>): nat
    requires forall i :: 0 <= i < |requests| ==> requests[i] < TWO64
  {
    if requests == [] then 0
    else
      var size := SizeAfter(requests[..|requests| - 1]);
      var next := SizeAfter(requests);
      Moved(requests[..|requests| - 1]) + if next == size then 0 else size
  }

  function Largest(requests: seq<nat>): (m: nat)
    requires requests != []
    ensures m in requests && forall i :: 0 <= i < |requests| ==> requests[i] <= m
  {
    var last := requests[|requests| - 1];
    if |requests| == 1 then last
    else
      var m := Largest(requests[..|requests| - 1]);
      if m < last then last else m
  }

  ghost predicate Modest(requests: seq<nat>) {
    forall i :: 0 <= i < |requests| ==> requests[i] <= TWO32 - HEADER
  }

  lemma StillHolds(size: nat, total: nat, more: nat)
    requires Holds(size, total) && total <= more <= size
    ensures Holds(size, more)
  {
    assert INITIAL == Pow2(6) && Pow2(5) == 32;
    if total < INITIAL <= more {
      assert RoundedTo(more, size);
    } else if total >= INITIAL {
      var k: nat :| size == Pow2(k) && total <= size && (k > 0 ==> Pow2(k - 1) < total);
      assert k > 0 ==> Pow2(k - 1) < more;
    }
  }

  lemma HoldsIsPower(size: nat, total: nat)
    requires Holds(size, total)
    ensures Power(size) && size >= INITIAL && size >= total
    ensures total >= INITIAL ==> size < 2 * total
  {
    assert INITIAL == Pow2(6);
    if total >= INITIAL {
      var k: nat :| size == Pow2(k) && total <= size && (k > 0 ==> Pow2(k - 1) < total);
    }
  }

  lemma HoldsUnique(a: nat, b: nat, total: nat)
    requires Holds(a, total) && Holds(b, total)
    ensures a == b
  {
    if total >= INITIAL {
      RoundedUnique(total, a, b);
    }
  }

  /**
   * While requests stay within 2^32, the size depends on the largest request alone, not on the
   * order or the number of requests.
   */
  lemma {:induction false} SizeIsOfLargest(requests: seq<nat>)
    requires Modest(requests) && requests != []
    ensures SizeAfter(requests) == NextSize(Largest(requests) + HEADER)
  {
    hide NextSize, Holds, After;
    var before := requests[..|requests| - 1];
    var last := requests[|requests| - 1];
    ModestStep(SizeAfter(before), last);
    NextSizeRounds(last + HEADER);
    HoldsIsPower(NextSize(last + HEADER), last + HEADER);
    if before == [] {
      assert SizeAfter(requests) == After(0, last, true);
    } else {
      SizeIsOfLargest(before);
      var m := Largest(before);
      var size := SizeAfter(before);
      NextSizeRounds(m + HEADER);
      HoldsIsPower(size, m + HEADER);
      if m < last && last + HEADER <= size {
        StillHolds(size, m + HEADER, last + HEADER);
        HoldsUnique(size, NextSize(last + HEADER), last + HEADER);
      }
    }
  }

  lemma ModestStep(size: nat, request: nat)
    requires request <= TWO32 - HEADER
    ensures After(size, request, true) == if size >= request + HEADER then size else NextSize(request + HEADER)
  {
    hide NextSize;
    assert Wrap64(request + HEADER) == request + HEADER;
  }

  /** While sizes stay within 2^32, every growth of a used buffer at least doubles it. */
  lemma GrowthDoubles(size: nat, held: nat, total: nat)
    requires Holds(size, held) && size < total <= TWO32
    ensures NextSize(total) >= 2 * size
  {
    hide NextSize, Holds, Power, NoGap;
    HoldsIsPower(size, held);
    SmallHasNoGap(total - 1);
    DoublesIff(size, total);
  }

  lemma RunStep(before: seq<nat>, last: nat)
    requires Modest(before) && last <= TWO32 - HEADER
    ensures Modest(before + [last])
    ensures SizeAfter(before + [last]) == After(SizeAfter(before), last, true)
    ensures Moved(before + [last]) ==
      Moved(before) + if SizeAfter(before + [last]) == SizeAfter(before) then 0 else SizeAfter(before)
  {
    hide After;
    assert (before + [last])[..|before|] == before;
  }

  lemma EmptyRun()
    ensures SizeAfter([]) == 0 && Moved([]) == 0
  {
  }

  lemma UsedBufferDoubles(before: seq<nat>, total: nat)
    requires Modest(before) && before != [] && SizeAfter(before) < total <= TWO32
    ensures NextSize(total) >= 2 * SizeAfter(before)
  {
    hide NextSize, Holds, SizeAfter, Largest;
    SizeIsOfLargest(before);
    NextSizeRounds(Largest(before) + HEADER);
    GrowthDoubles(SizeAfter(before), Largest(before) + HEADER, total);
  }

  /** Growing exponentially pays off: all blocks ever moved together are smaller than the last one. */
  lemma {:induction false} MovesBounded(requests: seq<nat>)
    requires Modest(requests)
    ensures requests != [] ==> Moved(requests) < SizeAfter(requests)
    ensures requests == [] ==> Moved(requests) == 0
  {
    hide NextSize, After, SizeAfter, Moved;
    EmptyRun();
    if requests != [] {
      var before := requests[..|requests| - 1];
      var last := requests[|requests| - 1];
      assert requests == before + [last];
      MovesBounded(before);
      RunStep(before, last);
      ModestStep(SizeAfter(before), last);
      NextSizeHolds(last + HEADER);
      if before != [] && SizeAfter(before) < last + HEADER {
        UsedBufferDoubles(before, last + HEADER);
      }
    }
  }

  // Runs in which realloc may refuse.

  datatype Ask = Ask(request: nat, granted: bool)

  ghost predicate ModestRun(run: seq<Ask>) {
    forall i :: 0 <= i < |run| ==> run[i].request <= TWO32 - HEADER
  }

  /** complete_size after any run on a fresh buffer. */
  function RunSize(run: seq<Ask>): nat
    requires forall i :: 0 <= i < |run| ==> run[i].request < TWO64
  {
    if run == [] then 0
    else
      var last := run[|run| - 1];
      After(RunSize(run[..|run| - 1]), last.request, last.granted)
  }

  /** The requests since the last one that was refused while the buffer was too small. */
  function SinceRefusal(run: seq<Ask>): seq<nat>
    requires forall i :: 0 <= i < |run| ==> run[i].request < TWO64
  {
    if run == [] then []
    else
      var last := run[|run| - 1];
      if !last.granted && RunSize(run[..|run| - 1]) < Wrap64(last.request + HEADER) then []
      else SinceRefusal(run[..|run| - 1]) + [last.request]
  }

  /** A refusal forgets all before it; any other request counts as granted. */
  lemma {:induction false} RefusalForgets(run: seq<Ask>)
    requires ModestRun(run)
    ensures Modest(SinceRefusal(run)) && RunSize(run) == SizeAfter(SinceRefusal(run))
  {
    hide NextSize;
    if run != [] {
      var before := run[..|run| - 1];
      var last := run[|run| - 1];
      RefusalForgets(before);
      if last.granted || RunSize(before) >= Wrap64(last.request + HEADER) {
        RunStep(SinceRefusal(before), last.request);
      }
    }
  }

  /** Within 2^32 the size depends on the largest request since the last refusal alone, whatever was refused. */
  lemma SizeSinceRefusal(run: seq<Ask>)
    requires ModestRun(run)
    ensures Modest(SinceRefusal(run))
    ensures RunSize(run) ==
      if SinceRefusal(run) == [] then 0 else NextSize(Largest(SinceRefusal(run)) + HEADER)
  {
    hide RunSize, SinceRefusal, SizeAfter, NextSize, Largest;
    RefusalForgets(run);
    EmptyRun();
    if SinceRefusal(run) != [] {
      SizeIsOfLargest(SinceRefusal(run));
    }
  }
}
