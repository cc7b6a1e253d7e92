/** list.h and afl-prealloc.h: a circular list whose elements come from a pool of 64 slots first. */
module PoolList {
  import opened Words
  import opened Bags

  /** A `void *`; 0 is NULL. */
  type Pointer = nat

  datatype Status = Unused | Used | Malloc

  const POOL: nat := 64

  class Element {
    var status: Status
    var prev: Element?
    var next: Element?
    var data: Pointer

    constructor ()
      ensures status == Unused && prev == null == next && data == 0
    {
      status := Unused;
      prev := null;
      next := null;
      data := 0;
    }
  }

  function CountUsed(slots: seq<Status>): (n: nat)
    ensures n <= |slots|
  {
    if slots == [] then 0
    else CountUsed(slots[..|slots| - 1]) + if slots[|slots| - 1].Used? then 1 else 0
  }

  lemma {:induction false} CountAfter(slots: seq<Status>, s: nat, v: Status)
    requires s < |slots|
    ensures CountUsed(slots[s := v]) - (if v.Used? then 1 else 0) ==
            CountUsed(slots) - (if slots[s].Used? then 1 else 0)
  {
    var n := |slots| - 1;
    if s == n {
      assert slots[s := v][..n] == slots[..n];
    } else {
      assert slots[s := v][..n] == slots[..n][s := v];
      CountAfter(slots[..n], s, v);
    }
  }

  /** Fewer than all slots in use means that one is free. */
  lemma {:induction false} FreeSlot(slots: seq<Status>)
    requires CountUsed(slots) < |slots|
    ensures exists s :: 0 <= s < |slots| && !slots[s].Used?
  {
    var n := |slots| - 1;
    if slots[n].Used? {
      FreeSlot(slots[..n]);
    }
  }

  /** The items whose visit did not remove them; `drop` decides visit by visit. */
  function Kept(items: seq<Pointer>, drop: nat -> bool): seq<Pointer> {
    if items == [] then []
    else
      Kept(items[..|items| - 1], drop) +
      if drop(|items| - 1) then [] else [items[|items| - 1]]
  }

  /** One cycle, linked in both directions: the first element is also the last, and no other repeats. */
  ghost predicate Cycle(ring: seq<Element>)
    reads ring`next, ring`prev
  {
    && |ring| >= 2
    && ring[0] == ring[|ring| - 1]
    && Distinct(ring)
    && Linked(ring)
  }

  ghost predicate Distinct(ring: seq<Element>) {
    forall i, j :: 0 <= i < j < |ring| && j - i < |ring| - 1 ==> ring[i] != ring[j]
  }

  ghost predicate Linked(ring: seq<Element>)
    reads ring`next, ring`prev
  {
    forall i, j :: 0 <= i < j < |ring| && j == i + 1 ==> ring[i].next == ring[j] && ring[j].prev == ring[i]
  }

  function Inserted(ring: seq<Element>, el: Element): seq<Element>
    requires ring != []
  {
    ring[..|ring| - 1] + [el, ring[|ring| - 1]]
  }

  lemma InsertedMembers(ring: seq<Element>, el: Element)
    requires ring != []
    ensures forall e :: e in Inserted(ring, el) <==> e in ring || e == el
    ensures |ring| > 1 ==> Inserted(ring, el)[0] == ring[0]
  {
    assert ring == ring[..|ring| - 1] + [ring[|ring| - 1]];
  }

  lemma RemovedMembers(ring: seq<Element>, p: nat)
    requires Distinct(ring) && 0 < p < |ring| - 1
    ensures forall e :: e in Without(ring, p) <==> e in ring && e != ring[p]
    ensures Without(ring, p)[0] == ring[0]
  {
    RemovedDistinct(ring, p);
    assert ring == ring[..p] + [ring[p]] + ring[p + 1..];
  }

  lemma HeadLinked(ring: seq<Element>)
    requires Cycle(ring)
    ensures |ring| >= 2 && ring[0].next == ring[1] && ring[0].prev == ring[|ring| - 2]
  {
  }

  lemma InsertedDistinct(ring: seq<Element>, el: Element)
    requires |ring| >= 2 && Distinct(ring) && el !in ring
    ensures Distinct(Inserted(ring, el))
  {
    var r := Inserted(ring, el);
    forall i, j | 0 <= i < j < |r| && j - i < |r| - 1 ensures r[i] != r[j] {
      if j < |ring| - 1 {
        assert r[i] == ring[i] && r[j] == ring[j];
      } else if j == |ring| {
        assert r[j] == ring[|ring| - 1];
        assert i < |ring| - 1 ==> r[i] == ring[i];
      } else {
        assert r[i] == ring[i];
      }
    }
  }

  lemma RemovedDistinct(ring: seq<Element>, p: nat)
    requires |ring| >= 3 && Distinct(ring) && 0 < p < |ring| - 1
    ensures Distinct(Without(ring, p)) && ring[p] !in Without(ring, p)
  {
    var r := Without(ring, p);
    forall i, j | 0 <= i < j < |r| && j - i < |r| - 1 ensures r[i] != r[j] {
      assert r[i] == if i < p then ring[i] else ring[i + 1];
      assert r[j] == if j < p then ring[j] else ring[j + 1];
    }
  }

  /** The pointer writes of list_append. */
  method LinkLast(head: Element, el: Element, ghost ring: seq<Element>)
    requires Cycle(ring) && head == ring[0] && el !in ring
    modifies el`next, el`prev, ring`next, ring`prev
    ensures Cycle(Inserted(ring, el))
  {
    ghost var n := |ring| - 1;
    ghost var r := Inserted(ring, el);
    assert head.prev == ring[n - 1];
    InsertedDistinct(ring, el);
    el.next := head;
    el.prev := head.prev;
    head.prev.next := el;
    head.prev := el;
    forall i, j | 0 <= i < j < |r| && j == i + 1 ensures r[i].next == r[j] && r[j].prev == r[i] {
      if j < n {
        assert r[i] == ring[i] && r[j] == ring[j] && ring[i] != ring[n - 1] && ring[j] != head;
      }
    }
  }

  /** The pointer writes of list_remove and LIST_REMOVE_CURRENT_EL_IN_FOREACH. */
  method Unlink(el: Element, ghost ring: seq<Element>, ghost p: nat)
    requires Cycle(ring) && 0 < p < |ring| - 1 && el == ring[p]
    modifies ring`next, ring`prev
    ensures Cycle(Without(ring, p)) && el.next == old(el.next) == ring[p + 1]
  {
    ghost var r := Without(ring, p);
    assert el.prev == ring[p - 1] && el.next == ring[p + 1];
    RemovedDistinct(ring, p);
    el.prev.next := el.next;
    el.next.prev := el.prev;
    forall i, j | 0 <= i < j < |r| && j == i + 1 ensures r[i].next == r[j] && r[j].prev == r[i] {
      if j < p {
        assert r[i] == ring[i] && r[j] == ring[j] && ring[i] != ring[p - 1] && ring[j] != ring[p + 1];
      } else if i >= p {
        assert r[i] == ring[i + 1] && r[j] == ring[j + 1];
        assert ring[i + 1] != ring[p - 1] && ring[j + 1] != ring[p + 1];
      }
    }
  }

  /** The interior elements of the ring hold the items in order. */
  ghost predicate Stored(ring: seq<Element>, items: seq<Pointer>)
    reads ring`data
  {
    && |ring| == |items| + 2
    && forall i :: 0 < i <= |items| ==> ring[i].data == items[i - 1]
  }

  lemma InsertedStored(ring: seq<Element>, items: seq<Pointer>, el: Element)
    requires Stored(ring, items)
    ensures Stored(Inserted(ring, el), items + [el.data])
  {
    var r := Inserted(ring, el);
    forall i | 0 < i <= |items| + 1 ensures r[i].data == (items + [el.data])[i - 1] {
      assert i <= |items| ==> r[i] == ring[i];
    }
  }

  lemma RemovedStored(ring: seq<Element>, items: seq<Pointer>, p: nat)
    requires Stored(ring, items) && 0 < p <= |items|
    ensures Stored(Without(ring, p), Without(items, p - 1))
  {
    var r, t := Without(ring, p), Without(items, p - 1);
    forall i | 0 < i <= |t| ensures r[i].data == t[i - 1] {
      assert r[i] == if i < p then ring[i] else ring[i + 1];
    }
  }

  lemma RingSize(ring: seq<Element>, items: seq<Pointer>)
    requires Cycle(ring) && Stored(ring, items)
    ensures |ring| == |items| + 2 && Distinct(ring)
  {
  }

  class List {
    const pool: seq<Element>
    var count: int
    /** The elements in list order, with the head at both ends; empty before the first append. */
    ghost var ring: seq<Element>
    ghost var items: seq<Pointer>
    ghost var slots: seq<Status>
    ghost var repr: set<Element>

    ghost predicate Slots()
      reads this`slots, this`repr, repr`status
    {
      && |pool| == POOL && |slots| == POOL
      && (forall s :: 0 <= s < POOL ==> pool[s] in repr && slots[s] == pool[s].status)
      && (forall s, t :: 0 <= s < t < POOL ==> pool[s] != pool[t])
    }

    ghost predicate Ring()
      reads this, repr, ring
    {
      && |pool| == POOL
      && (forall e :: e in ring ==> e in repr)
      && Cycle(ring) && ring[0] == pool[0]
      && Stored(ring, items)
    }

    /**
     * The slots in use are those in the ring, and `count` counts them; `loose` is an element that
     * was allocated and is not linked yet, or is unlinked and not freed yet.
     */
    ghost predicate Owned(loose: Element?)
      reads this, repr, ring, loose
      requires |pool| == |slots| == POOL
    {
      && count == CountUsed(slots)
      && (forall e :: e in ring ==> !e.status.Unused? && (e.status.Used? ==> e in pool))
      && (forall s :: 0 <= s < POOL ==> !slots[s].Malloc? && (slots[s].Used? <==> pool[s] in ring || pool[s] == loose))
      && (loose != null ==> loose in repr && loose !in ring && !loose.status.Unused? && (loose.status.Used? ==> loose in pool))
    }

    ghost predicate Valid()
      reads this, repr, ring
    {
      && Slots()
      && if pool[0].next == null then ring == [] && items == [] else Ring() && Owned(null)
    }

    /** Whether the first append has happened. */
    ghost predicate Initialised()
      reads this, repr, ring
      requires Valid()
    {
      pool[0].next != null
    }

    /** A zeroed list_t: only the head's next pointer matters before the first append. */
    constructor ()
      ensures Valid() && !Initialised() && fresh(repr)
    {
      var cells: seq<Element> := [];
      ghost var marks: seq<Status> := [];
      while |cells| < POOL
        invariant |cells| == |marks| <= POOL
        invariant forall s :: 0 <= s < |cells| ==> fresh(cells[s]) && cells[s].status == marks[s] && cells[s].next == null
        invariant forall s, t :: 0 <= s < t < |cells| ==> cells[s] != cells[t]
      {
        var el := new Element();
        cells := cells + [el];
        marks := marks + [Unused];
      }
      pool := cells;
      count := 0;
      ring, items, slots := [], [], marks;
      repr := set e | e in cells;
    }

    /** memset of the whole list_t. */
    method Clear()
      requires |pool| == POOL
      modifies this`count, pool
      ensures forall s :: 0 <= s < POOL ==> pool[s].status == Unused && pool[s].next == null == pool[s].prev
      ensures count == 0
    {
      forall s | 0 <= s < POOL {
        pool[s].status := Unused;
      }
      forall s | 0 <= s < POOL {
        pool[s].prev := null;
      }
      forall s | 0 <= s < POOL {
        pool[s].next := null;
      }
      forall s | 0 <= s < POOL {
        pool[s].data := 0;
      }
      count := 0;
    }

    /** memset and PRE_ALLOC_FORCE on the head: an empty ring, one slot in use. */
    method Initialise()
      requires Valid() && !Initialised()
      modifies this`count, this`ring, this`slots, repr
      ensures Slots() && Ring() && Owned(null) && items == [] && repr == old(repr)
    {
      ghost var blank := seq(POOL, _ => Unused);
      Clear();
      slots := blank;
      NoneUsed(blank);
      var head := pool[0];
      CountAfter(slots, 0, Used);
      head.status := Used;
      slots := slots[0 := Used];
      count := count + 1;
      head.next := head;
      head.prev := head;
      ring := [head, head];
    }

    /** PRE_ALLOC's scan: below the limit a free slot is always there. */
    method FindFree() returns (s: nat)
      requires Slots() && Owned(null) && count < POOL
      ensures s < POOL && slots[s].Unused?
    {
      FreeSlot(slots);
      s := 0;
      while s < POOL
        invariant s <= POOL && forall t :: 0 <= t < s ==> !slots[t].Unused?
      {
        if pool[s].status.Unused? {
          break;
        }
        s := s + 1;
      }
    }

    method PreAlloc() returns (el: Element)
      requires Slots() && Ring() && Owned(null)
      modifies this`count, this`slots, this`repr, repr`status
      ensures Slots() && Ring() && Owned(el)
      ensures el !in old(repr) ==> fresh(el)
      ensures repr == old(repr) + {el}
    {
      hide Cycle, Stored;
      if count >= POOL {
        el := new Element();
        el.status := Malloc;
        repr := repr + {el};
      } else {
        var s := FindFree();
        el := pool[s];
        assert el !in ring;
        CountAfter(slots, s, Used);
        count := count + 1;
        el.status := Used;
        slots := slots[s := Used];
      }
    }

    /** PRE_FREE: neither of its FATAL branches is reached. */
    method PreFree(el: Element)
      requires Slots() && Ring() && Owned(el)
      modifies this`count, this`slots, el`status
      ensures Slots() && Ring() && Owned(null) && count >= 0
    {
      hide Cycle, Stored;
      assert !el.status.Unused?;
      if el.status.Used? {
        ghost var s :| 0 <= s < POOL && pool[s] == el;
        CountAfter(slots, s, Unused);
        slots := slots[s := Unused];
        count := count - 1;
      }
      el.status := Unused;
    }

    /** list_append. */
    method Append(x: Pointer)
      requires Valid()
      modifies this, repr
      ensures Valid() && Initialised()
      ensures items == old(items) + [x]
      ensures fresh(repr - old(repr))
    {
      var head := pool[0];
      if head.next == null {
        Initialise();
      }
      var el := PreAlloc();
      AddLast(el, x);
    }

    method AddLast(el: Element, x: Pointer)
      requires Slots() && Ring() && Owned(el)
      modifies this`ring, this`items, repr`next, repr`prev, repr`data
      ensures Slots() && Ring() && Owned(null) && pool[0].next != null
      ensures items == old(items) + [x]
    {
      hide Cycle, Stored, Slots, Inserted, CountUsed;
      assert |ring| >= 2 by { HeadLinked(ring); }
      el.data := x;
      LinkLast(pool[0], el, ring);
      InsertedStored(ring, items, el);
      InsertedMembers(ring, el);
      HeadLinked(Inserted(ring, el));
      ring := Inserted(ring, el);
      items := items + [x];
    }

    method TakeOut(el: Element, ghost p: nat)
      requires Slots() && Ring() && Owned(null)
      requires 0 < p <= |items| && el == ring[p]
      modifies this`ring, this`items, repr`next, repr`prev
      ensures Slots() && Ring() && Owned(el)
      ensures items == Without(old(items), p - 1)
      ensures ring == Without(old(ring), p)
    {
      hide Cycle, Stored, Slots, Without, CountUsed;
      RingSize(ring, items);
      Unlink(el, ring, p);
      RemovedStored(ring, items, p);
      RemovedMembers(ring, p);
      items := Without(items, p - 1);
      ring := Without(ring, p);
    }

    ghost predicate Live()
      reads this, repr, ring
    {
      Slots() && Ring() && Owned(null)
    }

    lemma ValidLive()
      requires Valid()
      ensures |pool| == POOL && pool[0] in repr
      ensures if pool[0].next == null then items == [] else Live()
    {
    }

    lemma LiveValid()
      requires Live()
      ensures Valid() && Initialised() && ring[0] == pool[0] && |ring| == |items| + 2 && pool[0].next == ring[1]
    {
      HeadLinked(ring);
    }

    /** The node at `p` is the head past the last item, and otherwise holds item `p - 1`. */
    lemma NodeAt(p: nat)
      requires Live() && 0 < p < |ring|
      ensures |pool| == POOL && |ring| == |items| + 2
      ensures ring[p] == pool[0] <==> p == |items| + 1
      ensures p <= |items| ==>
        ring[p] in repr && ring[p].data == items[p - 1] && ring[p].next == ring[p + 1]
    {
    }

    /** Unlink and free the node at `p`. */
    method Drop(el: Element, ghost p: nat)
      requires Live() && 0 < p < |ring| - 1 && p <= |items| && el == ring[p]
      modifies this, repr
      ensures Live() && repr == old(repr)
      ensures items == Without(old(items), p - 1) && ring == Without(old(ring), p)
    {
      TakeOut(el, p);
      PreFree(el);
    }

    /**
     * LIST_FOREACH whose block removes the current element on the visits that `drop` names. It visits
     * every item once and in order; before the first append it is FATAL.
     */
    method ForeachRemove(drop: nat -> bool) returns (ok: bool, visited: seq<Pointer>)
      requires Valid()
      modifies this, repr
      ensures Valid() && repr == old(repr)
      ensures ok == old(Initialised()) == Initialised()
      ensures ok ==> visited == old(items) && items == Kept(old(items), drop)
      ensures !ok ==> visited == [] && items == old(items)
    {
      ValidLive();
      var head := pool[0];
      var box := head.next;
      visited := [];
      if box == null {
        return false, visited;
      }
      hide Live, Valid, Kept, Without;
      ghost var kept: seq<Pointer>, rest := [], items;
      KeptNone(drop);
      LiveValid();
      while box != head
        invariant Live() && repr == old(repr)
        invariant items == kept + rest && |kept| + 1 < |ring| && box == ring[|kept| + 1]
        invariant visited + rest == old(items) && kept == Kept(visited, drop)
        decreases |rest|
      {
        NodeAt(|kept| + 1);
        var el := box.data;
        var next := box.next;
        Advance(kept, rest, visited);
        KeptSnoc(visited, el, drop);
        if drop(|visited|) {
          RemovedAt(ring, |kept| + 1);
          Drop(box, |kept| + 1);
        } else {
          kept := kept + [el];
        }
        visited := visited + [el];
        rest := rest[1..];
        box := next;
      }
      NodeAt(|kept| + 1);
      LiveValid();
      return true, visited;
    }

    /** LIST_FOREACH_CLEAR: every item is visited, and only the head stays, in its slot. */
    method ForeachClear() returns (ok: bool, visited: seq<Pointer>)
      requires Valid()
      modifies this, repr
      ensures Valid() && repr == old(repr)
      ensures ok == old(Initialised()) == Initialised()
      ensures ok ==> visited == old(items) && items == [] && ring == [pool[0], pool[0]] && count == 1
    {
      ok, visited := ForeachRemove(_ => true);
      if ok {
        KeptNothing(visited);
        OnlyHeadUsed(slots);
      }
    }

    /** list_remove: the first occurrence goes; without one it is FATAL. */
    method Remove(x: Pointer) returns (ok: bool, ghost at: nat)
      requires Valid()
      modifies this, repr
      ensures Valid() && repr == old(repr) && Initialised() == old(Initialised())
      ensures ok <==> x in old(items)
      ensures ok ==> at < |old(items)| && old(items)[at] == x && x !in old(items)[..at]
      ensures ok ==> items == Without(old(items), at)
      ensures !ok ==> items == old(items)
    {
      ValidLive();
      var head := pool[0];
      var box := head.next;
      at := 0;
      if box == null {
        return false, at;
      }
      hide Live, Valid, Without;
      LiveValid();
      while box != head
        invariant Live() && repr == old(repr) && items == old(items)
        invariant at + 1 < |ring| && box == ring[at + 1] && at <= |items|
        invariant x !in items[..at]
        decreases |items| - at
      {
        NodeAt(at + 1);
        var el := box.data;
        var next := box.next;
        if el == x {
          RemoveHere(box, at + 1);
          LiveValid();
          return true, at;
        }
        assert items[..at + 1] == items[..at] + [el];
        at := at + 1;
        box := next;
      }
      NodeAt(at + 1);
      LiveValid();
      assert items[..at] == items;
      return false, at;
    }

    method RemoveHere(box: Element, ghost p: nat)
      requires Live() && 0 < p < |ring| - 1 && p <= |items| && box == ring[p]
      modifies this, repr
      ensures Live() && repr == old(repr)
      ensures items == Without(old(items), p - 1)
    {
      TakeOut(box, p);
      hide Cycle;
      box.data := 0;
      PreFree(box);
    }

    /** list_contains; None is the FATAL of a walk over an uninitialised list. */
    method Contains(x: Pointer) returns (r: Option<bool>)
      requires Valid()
      ensures r == if Initialised() then Some(x in items) else None
    {
      ValidLive();
      var head := pool[0];
      var box := head.next;
      if box == null {
        return None;
      }
      hide Live, Valid;
      LiveValid();
      ghost var at: nat := 0;
      while box != head
        invariant at + 1 < |ring| && box == ring[at + 1] && at <= |items|
        invariant x !in items[..at]
        decreases |items| - at
      {
        NodeAt(at + 1);
        if box.data == x {
          return Some(true);
        }
        assert items[..at + 1] == items[..at] + [box.data];
        at := at + 1;
        box := box.next;
      }
      NodeAt(at + 1);
      assert items[..at] == items;
      return Some(false);
    }
  }

  lemma {:induction false} NoneUsed(slots: seq<Status>)
    requires forall s :: 0 <= s < |slots| ==> slots[s].Unused?
    ensures CountUsed(slots) == 0
  {
    if slots != [] {
      NoneUsed(slots[..|slots| - 1]);
    }
  }

  lemma KeptNone(drop: nat -> bool)
    ensures Kept([], drop) == []
  {
  }

  lemma KeptSnoc(visited: seq<Pointer>, x: Pointer, drop: nat -> bool)
    ensures Kept(visited + [x], drop) == Kept(visited, drop) + if drop(|visited|) then [] else [x]
  {
    assert (visited + [x])[..|visited|] == visited;
  }

  lemma Advance(kept: seq<Pointer>, rest: seq<Pointer>, visited: seq<Pointer>)
    requires rest != []
    ensures visited + [rest[0]] + rest[1..] == visited + rest
    ensures kept + [rest[0]] + rest[1..] == kept + rest
    ensures Without(kept + rest, |kept|) == kept + rest[1..]
  {
  }

  lemma {:induction false} KeptNothing(items: seq<Pointer>)
    ensures Kept(items, _ => true) == []
  {
    if items != [] {
      KeptNothing(items[..|items| - 1]);
    }
  }

  lemma RemovedAt(ring: seq<Element>, p: nat)
    requires p < |ring| - 1
    ensures |Without(ring, p)| == |ring| - 1 && Without(ring, p)[p] == ring[p + 1]
  {
  }

  lemma OnlyHeadUsed(slots: seq<Status>)
    requires |slots| > 0 && forall s :: 0 <= s < |slots| ==> !slots[s].Malloc? && (slots[s].Used? <==> s == 0)
    ensures CountUsed(slots) == 1
  {
    CountAfter(slots, 0, Unused);
    NoneUsed(slots[0 := Unused]);
  }
}
