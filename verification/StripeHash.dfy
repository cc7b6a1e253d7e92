/**
 The buffering that XXH32 and XXH64 share: four lanes mix whole stripes, an incomplete stripe waits
 in a small memory. The lanes and their mixing are parameters.
 */
module StripeHash {
  import opened Words

  datatype Kernel<!L> = Kernel(width: nat, mix: (L, seq<Byte>) -> L)

  /** XXH32 has stripes of 16 bytes, XXH64 of 32. */
  ghost predicate KernelOk<L>(k: Kernel<L>) {
    k.width == 16 || k.width == 32
  }

  /** The lanes after every whole stripe of `data`. */
  function Absorb<L>(k: Kernel<L>, lanes: L, data: seq<Byte>): L
    decreases |data|
  {
    if k.width == 0 || |data| < k.width then lanes
    else Absorb(k, k.mix(lanes, data[..k.width]), data[k.width..])
  }

  /** What is left of `data` after its whole stripes. */
  function Rest(width: nat, data: seq<Byte>): (r: seq<Byte>)
    ensures width > 0 ==> |r| < width
    decreases |data|
  {
    if width == 0 || |data| < width then data else Rest(width, data[width..])
  }

  lemma {:induction false} RestLength(width: nat, data: seq<Byte>)
    requires width == 16 || width == 32
    ensures |Rest(width, data)| == |data| % width
    decreases |data|
  {
    if |data| >= width {
      RestLength(width, data[width..]);
      if width == 16 {
        assert (|data| - 16) % 16 == |data| % 16;
      } else {
        assert (|data| - 32) % 32 == |data| % 32;
      }
    }
  }

  /** The rest is what is read from where the whole stripes end. */
  lemma {:induction false} RestIsSuffix(width: nat, data: seq<Byte>)
    requires width > 0
    ensures |Rest(width, data)| <= |data| && Rest(width, data) == data[|data| - |Rest(width, data)|..]
    decreases |data|
  {
    if |data| >= width {
      RestIsSuffix(width, data[width..]);
      var n := |Rest(width, data)|;
      assert data[width..][|data| - width - n..] == data[|data| - n..];
    }
  }

  /** Feeding more bytes is feeding them after the waiting rest. */
  lemma {:induction false} Resume<L>(k: Kernel<L>, lanes: L, data: seq<Byte>, more: seq<Byte>)
    requires k.width > 0
    ensures Absorb(k, lanes, data + more) == Absorb(k, Absorb(k, lanes, data), Rest(k.width, data) + more)
    ensures Rest(k.width, data + more) == Rest(k.width, Rest(k.width, data) + more)
    decreases |data|
  {
    if |data| >= k.width {
      assert (data + more)[..k.width] == data[..k.width];
      assert (data + more)[k.width..] == data[k.width..] + more;
      Resume(k, k.mix(lanes, data[..k.width]), data[k.width..], more);
    }
  }

  /** v, mem32/mem64 and memsize of XXH32_state_s and XXH64_state_s. */
  class Lanes<L> {
    const k: Kernel<L>
    const mem: array<Byte>
    var v: L
    var memsize: nat

    /** Stripes were mixed into `init` and the rest waits, for the bytes `data`. */
    ghost predicate Represents(init: L, data: seq<Byte>)
      reads this, mem
    {
      && KernelOk(k) && mem.Length == k.width && memsize < k.width
      && v == Absorb(k, init, data)
      && mem[..memsize] == Rest(k.width, data)
    }

    constructor (kernel: Kernel<L>, init: L)
      requires KernelOk(kernel)
      ensures Represents(init, []) && k == kernel && fresh(mem)
    {
      k := kernel;
      mem := new Byte[kernel.width];
      v, memsize := init, 0;
    }

    /** The sizes fit; whatever was hashed before. */
    ghost predicate Usable() {
      KernelOk(k) && mem.Length == k.width
    }

    /** The part of a reset that concerns the lanes: the memory is cleared and the lanes start anew. */
    method Reset(init: L)
      requires Usable()
      modifies this, mem
      ensures Represents(init, [])
    {
      forall i | 0 <= i < mem.Length {
        mem[i] := 0;
      }
      v, memsize := init, 0;
    }

    /** XXH32_update and XXH64_update without the length counters. */
    method Update(bytes: seq<Byte>, ghost init: L, ghost data: seq<Byte>)
      requires Represents(init, data)
      modifies this, mem
      ensures Represents(init, data + bytes)
    {
      hide Absorb, Rest;
      ghost var waiting := mem[..memsize];
      Resume(k, init, data, bytes);
      if memsize + |bytes| < k.width {
        CopyInto(mem, memsize, bytes);
        memsize := memsize + |bytes|;
        assert mem[..memsize] == waiting + bytes;
        Short(k, v, waiting + bytes);
        return;
      }
      var p := 0;
      if memsize > 0 {
        p := CompleteStripe(bytes);
      } else {
        assert waiting + bytes == bytes[0..];
      }
      MixRest(bytes, p);
    }

    /** Complete the waiting stripe from the input and mix it. */
    method CompleteStripe(bytes: seq<Byte>) returns (p: nat)
      requires KernelOk(k) && mem.Length == k.width && 0 < memsize < k.width <= memsize + |bytes|
      modifies this, mem
      ensures memsize == 0 && p <= |bytes|
      ensures Absorb(k, v, bytes[p..]) == old(Absorb(k, v, mem[..memsize] + bytes))
      ensures Rest(k.width, bytes[p..]) == old(Rest(k.width, mem[..memsize] + bytes))
    {
      hide Absorb, Rest;
      ghost var waiting := mem[..memsize];
      p := k.width - memsize;
      CopyInto(mem, memsize, bytes[..p]);
      assert mem[..] == waiting + bytes[..p];
      assert waiting + bytes == mem[..] + bytes[p..];
      Stripe(k, v, mem[..], bytes[p..]);
      v := k.mix(v, mem[..]);
      memsize := 0;
    }

    /** Mix the whole stripes of the input from `p0` on and keep the rest. */
    method MixRest(bytes: seq<Byte>, p0: nat)
      requires KernelOk(k) && mem.Length == k.width && memsize == 0 && p0 <= |bytes|
      modifies this, mem
      ensures memsize < k.width
      ensures v == old(Absorb(k, v, bytes[p0..])) && mem[..memsize] == Rest(k.width, bytes[p0..])
    {
      hide Absorb, Rest;
      var w, p := k.width, p0;
      while p + w <= |bytes|
        invariant p <= |bytes| && memsize == 0
        invariant Absorb(k, v, bytes[p..]) == old(Absorb(k, v, bytes[p0..]))
        invariant Rest(w, bytes[p..]) == Rest(w, bytes[p0..])
      {
        assert bytes[p..] == bytes[p..p + w] + bytes[p + w..];
        Stripe(k, v, bytes[p..p + w], bytes[p + w..]);
        v := k.mix(v, bytes[p..p + w]);
        p := p + w;
      }
      Short(k, v, bytes[p..]);
      if p < |bytes| {
        CopyInto(mem, 0, bytes[p..]);
        memsize := |bytes| - p;
      }
    }
  }

  lemma Short<L>(k: Kernel<L>, lanes: L, data: seq<Byte>)
    requires |data| < k.width
    ensures Absorb(k, lanes, data) == lanes && Rest(k.width, data) == data
  {
  }

  lemma Stripe<L>(k: Kernel<L>, lanes: L, stripe: seq<Byte>, data: seq<Byte>)
    requires |stripe| == k.width > 0
    ensures Absorb(k, lanes, stripe + data) == Absorb(k, k.mix(lanes, stripe), data)
    ensures Rest(k.width, stripe + data) == Rest(k.width, data)
  {
    assert (stripe + data)[..k.width] == stripe && (stripe + data)[k.width..] == data;
  }

  /** The do-while loop of the one-shot functions; `p` is how far the input pointer moves. */
  method MixAll<L>(k: Kernel<L>, init: L, input: seq<Byte>) returns (v: L, p: nat)
    requires KernelOk(k) && |input| >= k.width
    ensures v == Absorb(k, init, input) && p + |input| % k.width == |input|
  {
    hide Absorb, Rest;
    var w := k.width;
    v, p := init, 0;
    assert input[0..] == input;
    var more := true;
    while more
      invariant p <= |input| && more == (p + w <= |input|)
      invariant Absorb(k, v, input[p..]) == Absorb(k, init, input)
      invariant Rest(w, input[p..]) == Rest(w, input)
      decreases more, |input| - p
    {
      assert input[p..] == input[p..p + w] + input[p + w..];
      Stripe(k, v, input[p..p + w], input[p + w..]);
      v := k.mix(v, input[p..p + w]);
      p := p + w;
      more := p < |input| - (w - 1);
    }
    Short(k, v, input[p..]);
    RestLength(w, input);
  }

  /** Where the tail of an input is read: at the pointer, `len` modulo the stripe bytes of it. */
  lemma TailIsRest(width: nat, input: seq<Byte>, p: nat)
    requires (width == 16 || width == 32) && p + |input| % width == |input|
    ensures input[p..p + |input| % width] == Rest(width, input)
  {
    hide Rest;
    RestLength(width, input);
    RestIsSuffix(width, input);
  }
}
