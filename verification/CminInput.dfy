/** What main prepares: files sorted by size, renumbered traces, the table's start value, the batches. */
module CminInput {
  import opened Words
  import opened CminCorpus
  import opened CminProtocol

  // ---------- sorted(range(len(files)), key=size) ----------

  /** The order of a stable sort by size. */
  predicate Before(sizes: seq<nat>, a: nat, b: nat)
    requires a < |sizes| && b < |sizes|
  {
    sizes[a] < sizes[b] || (sizes[a] == sizes[b] && a < b)
  }

  ghost predicate SortedBySize(sizes: seq<nat>, order: seq<nat>) {
    && (forall k | 0 <= k < |order| :: order[k] < |sizes|)
    && forall j, k | 0 <= j < k < |order| :: Before(sizes, order[j], order[k])
  }

  /** `i` behind all that are not larger. */
  function InsertBySize(sizes: seq<nat>, order: seq<nat>, i: nat): (r: seq<nat>)
    requires i < |sizes| && forall k | 0 <= k < |order| :: order[k] < |sizes|
    ensures |r| == |order| + 1 && forall k | 0 <= k < |r| :: r[k] == i || r[k] in order
  {
    if order == [] || sizes[order[|order| - 1]] <= sizes[i] then order + [i]
    else InsertBySize(sizes, order[..|order| - 1], i) + [order[|order| - 1]]
  }

  lemma {:induction false} InsertBag(sizes: seq<nat>, order: seq<nat>, i: nat)
    requires i < |sizes| && forall k | 0 <= k < |order| :: order[k] < |sizes|
    ensures multiset(InsertBySize(sizes, order, i)) == multiset(order) + multiset{i}
  {
    if order != [] && sizes[order[|order| - 1]] > sizes[i] {
      var n := |order| - 1;
      InsertBag(sizes, order[..n], i);
      assert order == order[..n] + [order[n]];
    }
  }

  lemma SortedSnoc(sizes: seq<nat>, front: seq<nat>, last: nat)
    requires SortedBySize(sizes, front) && last < |sizes|
    requires forall k | 0 <= k < |front| :: Before(sizes, front[k], last)
    ensures SortedBySize(sizes, front + [last])
  {
  }

  lemma {:induction false} InsertSorts(sizes: seq<nat>, order: seq<nat>, i: nat)
    requires i < |sizes| && SortedBySize(sizes, order) && forall k | 0 <= k < |order| :: order[k] < i
    ensures SortedBySize(sizes, InsertBySize(sizes, order, i))
  {
    if order == [] || sizes[order[|order| - 1]] <= sizes[i] {
      SortedSnoc(sizes, order, i);
    } else {
      var n := |order| - 1;
      var front := InsertBySize(sizes, order[..n], i);
      InsertSorts(sizes, order[..n], i);
      forall k | 0 <= k < |front|
        ensures Before(sizes, front[k], order[n])
      {
        if front[k] != i {
          var j :| 0 <= j < n && order[..n][j] == front[k];
          assert Before(sizes, order[j], order[n]);
        }
      }
      SortedSnoc(sizes, front, order[n]);
    }
  }

  /** The first `n` files in order of size. */
  function Order(sizes: seq<nat>, n: nat): (order: seq<nat>)
    requires n <= |sizes|
    ensures |order| == n && forall k | 0 <= k < n :: order[k] < n
  {
    if n == 0 then [] else InsertBySize(sizes, Order(sizes, n - 1), n - 1)
  }

  lemma {:induction false} OrderSorted(sizes: seq<nat>, n: nat)
    requires n <= |sizes|
    ensures SortedBySize(sizes, Order(sizes, n)) && multiset(Order(sizes, n)) == multiset(AllFiles(n))
    ensures n == |sizes| ==> Sorted(sizes, Order(sizes, n))
  {
    hide SortedBySize, InsertBySize, AllFiles;
    if n == 0 {
      NothingSorted(sizes);
    } else {
      var before := Order(sizes, n - 1);
      OrderSorted(sizes, n - 1);
      InsertSorts(sizes, before, n - 1);
      InsertBag(sizes, before, n - 1);
      OneFileMore(n - 1);
    }
  }

  lemma OneFileMore(k: nat)
    ensures multiset(AllFiles(k + 1)) == multiset(AllFiles(k)) + multiset{k}
  {
    assert AllFiles(k + 1) == AllFiles(k) + [k];
  }

  lemma NothingSorted(sizes: seq<nat>)
    ensures SortedBySize(sizes, [])
  {
  }

  /** [files[idx] for idx in idxes]. */
  function Arranged<T>(files: seq<T>, order: seq<nat>): (r: seq<T>)
    requires forall k | 0 <= k < |order| :: order[k] < |files|
    ensures |r| == |order| && forall k | 0 <= k < |r| :: r[k] == files[order[k]]
  {
    seq(|order|, k requires 0 <= k < |order| => files[order[k]])
  }

  /** What sorted promises: every index once, in order of size, equal sizes in their old order. */
  ghost predicate Sorted(sizes: seq<nat>, order: seq<nat>) {
    SortedBySize(sizes, order) && multiset(order) == multiset(AllFiles(|sizes|))
  }

  lemma HasAll(sizes: seq<nat>, order: seq<nat>, f: nat) returns (k: nat)
    requires Sorted(sizes, order) && f < |sizes|
    ensures k < |order| && order[k] == f
  {
    hide SortedBySize;
    InAllFiles(|sizes|, f);
    assert f in multiset(order);
    k :| 0 <= k < |order| && order[k] == f;
  }

  lemma ShownAt(files: seq<Trace>, order: seq<nat>, k: nat, t: nat)
    requires (forall j | 0 <= j < |order| :: order[j] < |files|) && k < |order|
    ensures Shows(Arranged(files, order), k, t) <==> Shows(files, order[k], t)
  {
  }

  /** The winner of a tuple is a smallest file that shows it, and the first of those in the input. */
  lemma BestIsSmallest(files: seq<Trace>, sizes: seq<nat>, order: seq<nat>, sentinel: nat, t: nat, b: nat, f: nat)
    requires Sorted(sizes, order) && |files| == |sizes| && |order| <= sentinel && Shows(files, f, t)
    requires IsBest(Arranged(files, order), AllFiles(|order|), sentinel, t, b)
    ensures b < |order| && Shows(files, order[b], t) && (order[b] == f || Before(sizes, order[b], f))
  {
    hide IsBest, Arranged;
    var k := HasAll(sizes, order, f);
    ShownAt(files, order, k, t);
    FirstShower(Arranged(files, order), sentinel, t, b, k);
    ShownAt(files, order, b, t);
  }

  lemma FirstShower(ts: seq<Trace>, sentinel: nat, t: nat, b: nat, k: nat)
    requires |ts| <= sentinel && IsBest(ts, AllFiles(|ts|), sentinel, t, b) && Shows(ts, k, t)
    ensures b <= k && Shows(ts, b, t)
  {
    InAllFiles(|ts|, k);
    InAllFiles(|ts|, b);
  }

  // ---------- The configuration of a run ----------

  /** What afl-showmap reports: an edge times 1000 plus one of nine classes. */
  ghost predicate RawOk(raw: seq<Trace>, mapSize: nat) {
    forall i, k | 0 <= i < |raw| && 0 <= k < |raw[i]| :: raw[i][k] % 1000 < 9 && raw[i][k] / 1000 < mapSize
  }

  function RenumberAll(r: Trace): (t: Trace)
    ensures |t| == |r| && forall k | 0 <= k < |t| :: t[k] == Renumber(r[k])
  {
    seq(|r|, k requires 0 <= k < |r| => Renumber(r[k]))
  }

  function Renumbered(raw: seq<Trace>): (ts: seq<Trace>)
    ensures |ts| == |raw| && forall i | 0 <= i < |ts| :: ts[i] == RenumberAll(raw[i])
  {
    seq(|raw|, i requires 0 <= i < |raw| => RenumberAll(raw[i]))
  }

  /** The tables have nine entries per edge; the item sizes are those of detect_type_code. */
  function Settings(raw: seq<Trace>, mapSize: nat, crashDir: bool): (cfg: Config)
    requires RawOk(raw, mapSize) && |raw| < TWO64 && 9 * mapSize < TWO64
    ensures ValidConfig(cfg)
  {
    SentinelIsNoFile(|raw|);
    SentinelIsNoFile(9 * mapSize);
    FitsTable(raw, mapSize);
    Config(Renumbered(raw), 9 * mapSize, Power256(DetectItemSize(|raw|)) - 1, DetectItemSize(9 * mapSize), crashDir)
  }

  lemma FitsTable(raw: seq<Trace>, mapSize: nat)
    requires RawOk(raw, mapSize)
    ensures forall i, k | 0 <= i < |raw| && 0 <= k < |Renumbered(raw)[i]| :: Renumbered(raw)[i][k] < 9 * mapSize
  {
    forall i, k | 0 <= i < |raw| && 0 <= k < |Renumbered(raw)[i]|
      ensures Renumbered(raw)[i][k] < 9 * mapSize
    {
      RenumberInjective(raw[i][k], raw[i][k], mapSize);
    }
  }

  /** Renumbering keeps apart what the files show. */
  lemma ShowsRenumbered(raw: seq<Trace>, mapSize: nat, i: nat, j: nat, v: nat)
    requires RawOk(raw, mapSize) && Shows(raw, i, v)
    ensures Shows(raw, j, v) <==> Shows(Renumbered(raw), j, Renumber(v))
  {
    var k :| 0 <= k < |raw[i]| && raw[i][k] == v;
    if Shows(raw, j, v) {
      var m :| 0 <= m < |raw[j]| && raw[j][m] == v;
      assert Renumbered(raw)[j][m] == Renumber(v);
    }
    if Shows(Renumbered(raw), j, Renumber(v)) {
      var m :| 0 <= m < |Renumbered(raw)[j]| && Renumbered(raw)[j][m] == Renumber(v);
      assert raw[j][m] % 1000 < 9;
      RenumberInjective(v, raw[j][m], mapSize);
    }
  }
}
