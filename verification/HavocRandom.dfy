/** rand_below: the rejection of draws that would favour small residues. */
module HavocRandom {
  import opened Words

  const UINT64_MAX: nat := TWO64 - 1

  /** The condition under which the loop stops. */
  predicate Accepted(limit: nat, x: nat)
    requires limit > 0
  {
    x < UINT64_MAX - UINT64_MAX % limit
  }

  /** 0 is always accepted, so the loop can stop. */
  lemma ZeroAccepted(limit: nat)
    requires 0 < limit < TWO32
    ensures Accepted(limit, 0)
  {
  }

  /** The loop on the values that rand_next gives: the first accepted one counts. */
  method Reject(limit: nat, draws: seq<nat>) returns (r: Option<nat>, used: nat)
    requires 1 < limit < TWO32
    ensures used <= |draws| && forall k | 0 <= k < used - 1 :: !Accepted(limit, draws[k])
    ensures r.Some? ==> used > 0 && Accepted(limit, draws[used - 1]) && r.value == draws[used - 1] % limit < limit
    ensures r.None? ==> used == |draws| && forall k | 0 <= k < used :: !Accepted(limit, draws[k])
  {
    used := 0;
    while used < |draws|
      invariant used <= |draws| && forall k | 0 <= k < used :: !Accepted(limit, draws[k])
    {
      used := used + 1;
      if draws[used - 1] < UINT64_MAX - UINT64_MAX % limit {
        return Some(draws[used - 1] % limit), used;
      }
    }
    return None, used;
  }

  /** rand_below with the accepted draw left open: 0 for the limits 0 and 1, else a number below the limit. */
  method RandBelow(limit: nat) returns (r: nat)
    requires limit < TWO32
    ensures if limit <= 1 then r == 0 else r < limit
  {
    if limit <= 1 { return 0; }
    ZeroAccepted(limit);
    var x: nat :| x < TWO64 && Accepted(limit, x);
    r := x % limit;
  }

  // ---------- No residue is favoured ----------

  /** The numbers below `n * limit` with residue `r`. */
  function Residues(limit: nat, r: nat, n: nat): set<nat> {
    if n == 0 then {} else Residues(limit, r, n - 1) + {r + limit * (n - 1)}
  }

  lemma StepUp(limit: nat, n: nat)
    requires n > 0
    ensures limit * n == limit * (n - 1) + limit
  {
  }

  lemma InBlock(limit: nat, r: nat, x: nat, low: nat, m: nat)
    requires r < limit && low == limit * m && low <= x < low + limit
    ensures x % limit == r <==> x == r + low
  {
    assert x == limit * (x / limit) + x % limit;
    Copies(limit, x - low, m, x % limit, x / limit);
  }

  lemma {:induction false} ResidueSet(limit: nat, r: nat, n: nat)
    requires r < limit
    ensures |Residues(limit, r, n)| == n
    ensures forall x: nat :: x in Residues(limit, r, n) <==> x < limit * n && x % limit == r
  {
    if n > 0 {
      var low := limit * (n - 1);
      ResidueSet(limit, r, n - 1);
      StepUp(limit, n);
      forall x: nat
        ensures x in Residues(limit, r, n) <==> x < limit * n && x % limit == r
      {
        if low <= x < low + limit {
          InBlock(limit, r, x, low, n - 1);
        }
      }
    }
  }

  /** Every residue has exactly UINT64_MAX / limit accepted draws. */
  lemma NoBias(limit: nat, r: nat)
    requires 1 < limit < TWO32 && r < limit
    ensures |Residues(limit, r, UINT64_MAX / limit)| == UINT64_MAX / limit
    ensures forall x: nat :: x in Residues(limit, r, UINT64_MAX / limit) <==> Accepted(limit, x) && x % limit == r
  {
    hide Residues;
    ResidueSet(limit, r, UINT64_MAX / limit);
    assert limit * (UINT64_MAX / limit) == UINT64_MAX - UINT64_MAX % limit;
  }
}
