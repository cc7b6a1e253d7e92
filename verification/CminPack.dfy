/** The trace packs on disk: items of a fixed number of bytes, written by tofile and read at an offset. */
module CminPack {
  import opened Words

  /** Every item fits the array type. */
  ghost predicate Fits(items: seq<nat>, size: nat) {
    forall k | 0 <= k < |items| :: items[k] < Power256(size)
  }

  /** What tofile writes. */
  function Encode(items: seq<nat>, size: nat): seq<Octet> {
    if items == [] then [] else Encode(items[..|items| - 1], size) + Octets(items[|items| - 1], size)
  }

  /** What fromfile reads: `count` items from offset `at`. */
  function ReadItems(file: seq<Octet>, at: nat, size: nat, count: nat): seq<nat>
    requires at + size * count <= |file|
    decreases count
  {
    if count == 0 then []
    else
      OneLess(size, count);
      var last := at + size * (count - 1);
      ReadItems(file, at, size, count - 1) + [OctetValue(file[last..last + size])]
  }

  lemma OneLess(size: nat, n: nat)
    requires n > 0
    ensures size * n == size * (n - 1) + size
  {
  }

  lemma SmallerProduct(size: nat, a: nat, b: nat)
    requires a <= b
    ensures size * a <= size * b && size * b == size * a + size * (b - a)
  {
  }

  lemma {:induction false} EncodeLength(items: seq<nat>, size: nat)
    ensures |Encode(items, size)| == size * |items|
  {
    hide Octets;
    if items != [] {
      EncodeLength(items[..|items| - 1], size);
      OneLess(size, |items|);
    }
  }

  lemma EncodeSnoc(items: seq<nat>, v: nat, size: nat)
    ensures Encode(items + [v], size) == Encode(items, size) + Octets(v, size)
  {
    hide Octets;
    assert (items + [v])[..|items|] == items;
  }

  lemma SliceFront(x: seq<Octet>, y: seq<Octet>, at: nat, n: nat)
    requires at + n <= |x|
    ensures (x + y)[at..at + n] == x[at..at + n]
  {
  }

  lemma SliceBack(x: seq<Octet>, y: seq<Octet>)
    ensures (x + y)[|x|..|x| + |y|] == y
  {
  }

  /** Item `k` lies at byte `size * k`. */
  lemma {:induction false} ItemAt(items: seq<nat>, size: nat, k: nat)
    requires k < |items|
    ensures size * k + size <= |Encode(items, size)|
    ensures Encode(items, size)[size * k..size * k + size] == Octets(items[k], size)
  {
    hide Octets, Encode;
    var n := |items| - 1;
    var front, last := Encode(items[..n], size), Octets(items[n], size);
    assert items == items[..n] + [items[n]];
    EncodeSnoc(items[..n], items[n], size);
    EncodeLength(items[..n], size);
    if k < n {
      ItemAt(items[..n], size, k);
      SliceFront(front, last, size * k, size);
    } else {
      SliceBack(front, last);
    }
  }

  /** seek and fromfile return the items that were written there. */
  lemma {:induction false} ReadBack(items: seq<nat>, size: nat, pos: nat, count: nat)
    requires Fits(items, size) && pos + count <= |items|
    ensures size * pos + size * count <= |Encode(items, size)|
    ensures ReadItems(Encode(items, size), size * pos, size, count) == items[pos..pos + count]
    decreases count
  {
    hide Octets, Encode, OctetValue;
    var file := Encode(items, size);
    EncodeLength(items, size);
    SmallerProduct(size, pos, pos + count);
    SmallerProduct(size, pos + count, |items|);
    if count > 0 {
      ReadBack(items, size, pos, count - 1);
      OneLess(size, count);
      SmallerProduct(size, pos, pos + count - 1);
      ItemAt(items, size, pos + count - 1);
      ValueOfOctets(items[pos + count - 1], size);
      assert items[pos..pos + count] == items[pos..pos + count - 1] + [items[pos + count - 1]];
    }
  }

  /** At offset `at` of the file stands exactly this trace. */
  ghost predicate TraceAt(file: seq<Octet>, at: nat, count: nat, size: nat, trace: seq<nat>) {
    at + size * count <= |file| && ReadItems(file, at, size, count) == trace
  }

  lemma {:induction false} ReadShifted(x: seq<Octet>, y: seq<Octet>, at: nat, size: nat, count: nat)
    requires at + size * count <= |y|
    ensures ReadItems(x + y, |x| + at, size, count) == ReadItems(y, at, size, count)
    decreases count
  {
    hide OctetValue;
    if count > 0 {
      OneLess(size, count);
      ReadShifted(x, y, at, size, count - 1);
      var last := at + size * (count - 1);
      assert (x + y)[|x| + last..|x| + last + size] == y[last..last + size];
    }
  }

  lemma {:induction false} ReadPrefix(x: seq<Octet>, y: seq<Octet>, at: nat, size: nat, count: nat)
    requires at + size * count <= |x| && x <= y
    ensures ReadItems(y, at, size, count) == ReadItems(x, at, size, count)
    decreases count
  {
    hide OctetValue;
    if count > 0 {
      OneLess(size, count);
      ReadPrefix(x, y, at, size, count - 1);
      var last := at + size * (count - 1);
      assert y[last..last + size] == x[last..last + size];
    }
  }

  /** Appending to a file keeps the traces in it. */
  lemma TraceStays(file: seq<Octet>, longer: seq<Octet>, at: nat, count: nat, size: nat, trace: seq<nat>)
    requires TraceAt(file, at, count, size, trace) && file <= longer
    ensures TraceAt(longer, at, count, size, trace)
  {
    ReadPrefix(file, longer, at, size, count);
  }

  /** A trace appended to a file stands at its old end. */
  lemma TraceAppended(file: seq<Octet>, trace: seq<nat>, size: nat)
    requires Fits(trace, size)
    ensures TraceAt(file + Encode(trace, size), |file|, |trace|, size, trace)
  {
    hide Encode, ReadItems;
    EncodeLength(trace, size);
    ReadBack(trace, size, 0, |trace|);
    ReadShifted(file, Encode(trace, size), 0, size, |trace|);
    assert trace[0..|trace|] == trace && size * 0 == 0;
  }
}
