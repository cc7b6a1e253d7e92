/** afl-cmin from the traces and sizes of the files to the saved files. */
module CminMain {
  import opened Words
  import opened CminCorpus
  import opened CminProtocol
  import opened CminProof
  import opened CminWorker
  import opened CminInput
  import opened CminSelect

  /** Among the files that show some value, `i` is a smallest. */
  ghost predicate Smallest(files: seq<Trace>, sizes: seq<nat>, i: nat) {
    && |files| == |sizes| && i < |files|
    && exists v :: Shows(files, i, v) && forall j: nat | Shows(files, j, v) :: sizes[i] <= sizes[j]
  }

  lemma ArrangedRaw(raw: seq<Trace>, mapSize: nat, order: seq<nat>)
    requires RawOk(raw, mapSize) && forall k | 0 <= k < |order| :: order[k] < |raw|
    ensures RawOk(Arranged(raw, order), mapSize)
  {
  }

  lemma ArrangedSizes(sizes: seq<nat>, order: seq<nat>, j: nat, k: nat)
    requires SortedBySize(sizes, order) && j <= k < |order|
    ensures Arranged(sizes, order)[j] <= Arranged(sizes, order)[k]
  {
  }

  /** A winner among the renumbered traces is a smallest file for a value that it shows. */
  lemma WinnerIsSmallest(files: seq<Trace>, sizes: seq<nat>, mapSize: nat, cfg: Config, i: nat)
    requires RawOk(files, mapSize) && cfg.ts == Renumbered(files) && |files| == |sizes|
    requires forall j, k | 0 <= j <= k < |sizes| :: sizes[j] <= sizes[k]
    requires i < |files| && Winner(cfg, i)
    ensures Smallest(files, sizes, i)
  {
    hide Renumbered;
    var t :| Shows(cfg.ts, i, t) && IsBest(cfg.ts, AllFiles(|cfg.ts|), cfg.sentinel, t, i);
    var m :| 0 <= m < |cfg.ts[i]| && cfg.ts[i][m] == t;
    var v := files[i][m];
    assert Shows(files, i, v) && Renumber(v) == t;
    forall j: nat | Shows(files, j, v)
      ensures sizes[i] <= sizes[j]
    {
      ShowsRenumbered(files, mapSize, i, j, v);
      InAllFiles(|cfg.ts|, j);
    }
  }

  /** Covering the renumbered traces is covering the reported ones. */
  lemma CoversRenumbered(files: seq<Trace>, mapSize: nat, cover: set<nat>)
    requires RawOk(files, mapSize)
    ensures Covers(files, cover) <==> Covers(Renumbered(files), cover)
  {
    hide Renumbered;
    var ts := Renumbered(files);
    if Covers(files, cover) {
      forall i: nat, t: nat | Shows(ts, i, t)
        ensures exists j :: j in cover && Shows(ts, j, t)
      {
        var m :| 0 <= m < |ts[i]| && ts[i][m] == t;
        var v := files[i][m];
        assert Shows(files, i, v);
        var j :| j in cover && Shows(files, j, v);
        ShowsRenumbered(files, mapSize, i, j, v);
      }
    }
    if Covers(ts, cover) {
      forall i: nat, v: nat | Shows(files, i, v)
        ensures exists j :: j in cover && Shows(files, j, v)
      {
        ShowsRenumbered(files, mapSize, i, i, v);
        var j :| j in cover && Shows(ts, j, Renumber(v));
        ShowsRenumbered(files, mapSize, i, j, v);
      }
    }
  }

  /** The run that main starts: sorted files, detected item sizes, batches by the number of workers. */
  ghost predicate Ran(raw: seq<Trace>, sizes: seq<nat>, mapSize: nat, crashDir: bool, n: nat,
                      steps: seq<Step>, s: State)
    requires RawOk(raw, mapSize) && |raw| == |sizes| < TWO64 && 9 * mapSize < TWO64 && n > 0
  {
    var files := Arranged(raw, Order(sizes, |sizes|));
    ArrangedRaw(raw, mapSize, Order(sizes, |sizes|));
    var cfg := Settings(files, mapSize, crashDir);
    Reaches(cfg, Init(cfg, n, BatchesFrom(0, |files|, ChunkSize(|files|, n))), steps, s) && Finished(s)
  }

  /** Whatever the corpus and the number of workers, main has a run that ends. */
  lemma RunExists(raw: seq<Trace>, sizes: seq<nat>, mapSize: nat, crashDir: bool, n: nat)
    returns (steps: seq<Step>, s: State)
    requires RawOk(raw, mapSize) && |raw| == |sizes| < TWO64 && 9 * mapSize < TWO64 && n > 0
    ensures Ran(raw, sizes, mapSize, crashDir, n, steps, s)
  {
    hide Reaches, Init, Inv, Settings, Partition, Finished;
    var files := Arranged(raw, Order(sizes, |sizes|));
    ArrangedRaw(raw, mapSize, Order(sizes, |sizes|));
    var cfg := Settings(files, mapSize, crashDir);
    SettingsTraces(files, mapSize, crashDir);
    var batches := BatchesFrom(0, |files|, ChunkSize(|files|, n));
    BatchesPartition(|files|, ChunkSize(|files|, n));
    InitHolds(cfg, n, batches);
    steps, s := Completes(cfg, Init(cfg, n, batches));
  }

  /**
   afl-cmin as a whole. For every corpus, number of workers and interleaving, the saved files show all
   that the corpus shows, none is saved twice, there are at most as many as tuples, each is a smallest
   file for something that it shows, those of the first loop are exactly the files that alone show a
   tuple, and are in every covering sub-corpus, and every later one was saved for a tuple that was the
   rarest not shown yet; the crash list names each file with an empty trace once. Files are numbered in the sorted order.
   */
  method Minimise(raw: seq<Trace>, sizes: seq<nat>, mapSize: nat, crashDir: bool, n: nat,
                  ghost steps: seq<Step>, s: State, unique: seq<(nat, nat)>)
    returns (order: seq<nat>, first: seq<nat>, saved: seq<nat>, crashes: seq<nat>)
    requires RawOk(raw, mapSize) && |raw| == |sizes| < TWO64 && 9 * mapSize < TWO64 && n > 0
    requires Ran(raw, sizes, mapSize, crashDir, n, steps, s)
    requires Enumerates(unique, MergedCounter(s.workers))
    ensures order == Order(sizes, |sizes|) && Sorted(sizes, order)
    ensures first <= saved && Distinct(saved) && |saved| <= |unique|
    ensures Covers(Arranged(raw, order), Elements(saved))
    ensures forall i | i in saved :: Smallest(Arranged(raw, order), Arranged(sizes, order), i)
    ensures forall i, cover | i in first && Covers(Arranged(raw, order), cover) :: i in cover
    ensures forall i: nat :: multiset(crashes)[i] == if i < |raw| && raw[order[i]] == [] then 1 else 0
    ensures RawOk(Arranged(raw, order), mapSize)
    ensures
      var cfg := Settings(Arranged(raw, order), mapSize, crashDir);
      && (forall i: nat :: i in first <==> ShowsAlone(cfg.ts, i))
      && forall p | |first| <= p < |saved| :: RarestFirst(cfg, saved, p)
  {
    hide Covers, Reaches, Init, Winner, Smallest, Settings, Enumerates, Distinct, ShowsAlone, RarestFirst;
    order := Order(sizes, |sizes|);
    OrderSorted(sizes, |sizes|);
    var files := Arranged(raw, order);
    ArrangedRaw(raw, mapSize, order);
    var cfg := Settings(files, mapSize, crashDir);
    SettingsTraces(files, mapSize, crashDir);
    var batches := Batched(|files|, ChunkSize(|files|, n));
    first, saved, crashes := MinimiseRun(cfg, n, batches, steps, s, unique);
    CoversRenumbered(files, mapSize, Elements(saved));
    forall i, cover | i in first && Covers(files, cover)
      ensures i in cover
    {
      CoversRenumbered(files, mapSize, cover);
    }
    forall i: nat
      ensures multiset(crashes)[i] == if i < |raw| && raw[order[i]] == [] then 1 else 0
    {
      assert i < |raw| ==> |cfg.ts[i]| == |raw[order[i]]|;
    }
    forall j, k | 0 <= j <= k < |order|
      ensures Arranged(sizes, order)[j] <= Arranged(sizes, order)[k]
    {
      ArrangedSizes(sizes, order, j, k);
    }
    forall i | i in saved
      ensures Smallest(files, Arranged(sizes, order), i)
    {
      WinnerIsSmallest(files, Arranged(sizes, order), mapSize, cfg, i);
    }
  }

  lemma SettingsTraces(files: seq<Trace>, mapSize: nat, crashDir: bool)
    requires RawOk(files, mapSize) && |files| < TWO64 && 9 * mapSize < TWO64
    ensures Settings(files, mapSize, crashDir).ts == Renumbered(files)
  {
  }
}
