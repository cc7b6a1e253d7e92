/**
 The corpus that afl-cmin reduces: the trace of each file (a list of tuple numbers), the winner of a
 tuple and the number of times a tuple occurs. Files are numbered in order of size.
 */
module CminCorpus {
  import opened Words
  import opened Bags

  type Trace = seq<nat>

  /** Every tuple number fits the per-tuple tables, and the sentinel is no file number. */
  ghost predicate ValidCorpus(ts: seq<Trace>, limit: nat, sentinel: nat) {
    && |ts| <= sentinel
    && forall i, k | 0 <= i < |ts| && 0 <= k < |ts[i]| :: ts[i][k] < limit
  }

  ghost predicate Shows(ts: seq<Trace>, i: nat, t: nat) {
    i < |ts| && t in ts[i]
  }

  /** `b` is the smallest number in `among` of a file that shows `t`, or the sentinel when there is none. */
  ghost predicate IsBest(ts: seq<Trace>, among: seq<nat>, sentinel: nat, t: nat, b: nat) {
    && (forall i | i in among && Shows(ts, i, t) :: b <= i)
    && (b == sentinel || (b in among && Shows(ts, b, t)))
  }

  /** There is one such number. */
  lemma BestUnique(ts: seq<Trace>, among1: seq<nat>, among2: seq<nat>, sentinel: nat, t: nat, b1: nat, b2: nat)
    requires |ts| <= sentinel && multiset(among1) == multiset(among2)
    requires IsBest(ts, among1, sentinel, t, b1) && IsBest(ts, among2, sentinel, t, b2)
    ensures b1 == b2
  {
    assert forall i :: i in among1 <==> i in multiset(among1);
    assert forall i :: i in among2 <==> i in multiset(among2);
  }

  /** How often each tuple occurs in the traces of the listed files (collections.Counter). */
  ghost function Tally(ts: seq<Trace>, files: seq<nat>): multiset<nat> {
    if files == [] then multiset{}
    else Tally(ts, files[..|files| - 1]) + TraceOf(ts, files[|files| - 1])
  }

  ghost function TraceOf(ts: seq<Trace>, i: nat): multiset<nat> {
    if i < |ts| then multiset(ts[i]) else multiset{}
  }

  lemma {:induction false} TallyConcat(ts: seq<Trace>, x: seq<nat>, y: seq<nat>)
    ensures Tally(ts, x + y) == Tally(ts, x) + Tally(ts, y)
  {
    if y == [] {
      assert x + y == x;
    } else {
      assert (x + y)[..|x + y| - 1] == x + y[..|y| - 1];
      TallyConcat(ts, x, y[..|y| - 1]);
    }
  }

  lemma TallyRemove(ts: seq<Trace>, files: seq<nat>, j: nat)
    requires j < |files|
    ensures Tally(ts, files) == Tally(ts, Without(files, j)) + TraceOf(ts, files[j])
  {
    assert files == files[..j] + ([files[j]] + files[j + 1..]);
    TallyConcat(ts, files[..j], [files[j]] + files[j + 1..]);
    TallyConcat(ts, [files[j]], files[j + 1..]);
    TallyConcat(ts, files[..j], files[j + 1..]);
    assert [files[j]][..0] == [];
    assert Tally(ts, [files[j]]) == TraceOf(ts, files[j]);
  }

  /** The tally does not depend on the order in which files were handled. */
  lemma {:induction false} TallyOrder(ts: seq<Trace>, x: seq<nat>, y: seq<nat>)
    requires multiset(x) == multiset(y)
    ensures Tally(ts, x) == Tally(ts, y)
    decreases |x|
  {
    hide Without;
    if x == [] {
      NoElements(x, y);
    } else {
      var j := MatchLast(x, y);
      TallyOrder(ts, x[..|x| - 1], Without(y, j));
      TallyRemove(ts, y, j);
    }
  }

  /** The listed files with an empty trace: in batch mode, those that crashed. */
  function Crashed(ts: seq<Trace>, files: seq<nat>): seq<nat> {
    if files == [] then []
    else
      var i := files[|files| - 1];
      Crashed(ts, files[..|files| - 1]) + if i < |ts| && ts[i] == [] then [i] else []
  }

  lemma {:induction false} CrashedConcat(ts: seq<Trace>, x: seq<nat>, y: seq<nat>)
    ensures Crashed(ts, x + y) == Crashed(ts, x) + Crashed(ts, y)
  {
    if y == [] {
      assert x + y == x;
    } else {
      var n := |y| - 1;
      assert (x + y)[..|x| + n] == x + y[..n];
      CrashedConcat(ts, x, y[..n]);
    }
  }

  /** A file is named as often as it was handled when its trace is empty, and else never. */
  lemma {:induction false} CrashedCount(ts: seq<Trace>, files: seq<nat>, i: nat)
    ensures multiset(Crashed(ts, files))[i] == if i < |ts| && ts[i] == [] then multiset(files)[i] else 0
  {
    if files != [] {
      var n := |files| - 1;
      CrashedCount(ts, files[..n], i);
      assert files == files[..n] + [files[n]];
    }
  }

  lemma {:induction false} EachFileOnce(n: nat, i: nat)
    ensures multiset(AllFiles(n))[i] == if i < n then 1 else 0
  {
    if n > 0 {
      EachFileOnce(n - 1, i);
      assert AllFiles(n) == AllFiles(n - 1) + [n - 1];
    }
  }

  /** The file numbers 0 .. n-1. */
  function AllFiles(n: nat): (s: seq<nat>)
    ensures |s| == n && forall i | 0 <= i < n :: s[i] == i
  {
    seq(n, i => i)
  }

  lemma InAllFiles(n: nat, i: nat)
    ensures i in AllFiles(n) <==> i < n
  {
    if i < n {
      assert AllFiles(n)[i] == i;
    }
  }

  /** A tuple counted once is shown by one file only. */
  lemma CountedOnce(ts: seq<Trace>, t: nat, i: nat, j: nat)
    requires i < j < |ts| && t in ts[i] && t in ts[j]
    ensures Tally(ts, AllFiles(|ts|))[t] >= 2
  {
    var all := AllFiles(|ts|);
    TallyRemove(ts, all, j);
    var rest := Without(all, j);
    assert rest[i] == i;
    TallyRemove(ts, rest, i);
    assert multiset(ts[i])[t] >= 1 && multiset(ts[j])[t] >= 1;
  }

  /** A tuple is counted exactly when some file shows it. */
  lemma {:induction false} CountedIffShown(ts: seq<Trace>, files: seq<nat>, t: nat)
    ensures t in Tally(ts, files) <==> exists i :: i in files && Shows(ts, i, t)
  {
    if files != [] {
      var last := files[|files| - 1];
      CountedIffShown(ts, files[..|files| - 1], t);
      assert files == files[..|files| - 1] + [last];
      if Shows(ts, last, t) {
        assert last in files;
      }
    }
  }

  /**
   detect_type_code: the item size of the first of B, H, I, L, Q whose range exceeds `size`.
   None when no type is large enough.
   */
  function DetectItemSize(size: nat): (r: int)
    ensures r == -1 <==> size >= 0x1_0000_0000_0000_0000
  {
    if 0x100 > size then 1
    else if 0x1_0000 > size then 2
    else if 0x1_0000_0000 > size then 4
    else if 0x1_0000_0000_0000_0000 > size then 8
    else -1
  }

  /** The table's start value is never the number of a file. */
  lemma SentinelIsNoFile(files: nat)
    requires files < 0x1_0000_0000_0000_0000
    ensures DetectItemSize(files) > 0 && files <= Power256(DetectItemSize(files)) - 1
    ensures DetectItemSize(files) in {1, 2, 4, 8}
    ensures forall k | k in {1, 2, 4} && k < DetectItemSize(files) :: Power256(k) <= files
  {
    hide Power256;
    Powers256();
  }

  /** The renumbering of a showmap value: nine classes per edge instead of a thousand. */
  function Renumber(v: nat): nat {
    v / 1000 * 9 + v % 1000
  }

  /** The renumbered trace fits a table of 9 entries per edge and keeps tuples apart, for classes below 9. */
  lemma RenumberInjective(v1: nat, v2: nat, mapSize: nat)
    requires v1 % 1000 < 9 && v2 % 1000 < 9 && v1 / 1000 < mapSize
    ensures Renumber(v1) < 9 * mapSize
    ensures Renumber(v1) == Renumber(v2) ==> v1 == v2
  {
  }
}
