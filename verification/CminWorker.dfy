/** The loops around the queues of afl-cmin: batching, one file in a worker, collecting, merging. */
module CminWorker {
  import opened Words
  import opened CminCorpus
  import opened CminPack
  import opened CminProtocol
  import opened CminProof

  /** The batch size of main. */
  function ChunkSize(files: nat, workers: nat): (c: nat)
    requires workers > 0
    ensures 1 <= c <= 128
  {
    var share := files / workers;
    var capped := if share < 128 then share else 128;
    if capped < 1 then 1 else capped
  }

  /** Up to 128, the largest batch that still gives every worker one; at least one file. */
  lemma ChunkFits(files: nat, workers: nat)
    requires workers > 0
    ensures
      var c := ChunkSize(files, workers);
      && (c == 1 || c * workers <= files)
      && (c == 128 || files < (c + 1) * workers)
  {
    var share := files / workers;
    assert files == workers * share + files % workers;
    if share > 128 {
      assert 128 * workers <= share * workers;
    }
  }

  /** The batches from file `at` on. */
  function BatchesFrom(at: nat, n: nat, chunk: nat): seq<seq<nat>>
    requires chunk >= 1
    decreases n - at
  {
    if at >= n then []
    else
      var end := if at + chunk <= n then at + chunk else n;
      [AllFiles(n)[at..end]] + BatchesFrom(end, n, chunk)
  }

  lemma {:induction false} BatchesBag(at: nat, n: nat, chunk: nat)
    requires chunk >= 1 && at <= n
    ensures BatchBag(BatchesFrom(at, n, chunk)) == multiset(AllFiles(n)[at..])
    ensures forall k | 0 <= k < |BatchesFrom(at, n, chunk)| :: 1 <= |BatchesFrom(at, n, chunk)[k]| <= chunk
    decreases n - at
  {
    var bs, all := BatchesFrom(at, n, chunk), AllFiles(n);
    if at < n {
      var end := if at + chunk <= n then at + chunk else n;
      BatchesBag(end, n, chunk);
      assert bs[1..] == BatchesFrom(end, n, chunk);
      assert all[at..] == all[at..end] + all[end..];
    }
  }

  /** The batches have between 1 and `chunk` files and together name every file once. */
  lemma BatchesPartition(n: nat, chunk: nat)
    requires chunk >= 1
    ensures Partition(n, BatchesFrom(0, n, chunk))
    ensures forall k | 0 <= k < |BatchesFrom(0, n, chunk)| :: 1 <= |BatchesFrom(0, n, chunk)[k]| <= chunk
  {
    hide BatchBag, BatchesFrom;
    BatchesBag(0, n, chunk);
    assert AllFiles(n)[0..] == AllFiles(n);
  }

  /** _batched over enumerate(files). */
  method Batched(n: nat, chunk: nat) returns (batches: seq<seq<nat>>)
    requires chunk >= 1
    ensures batches == BatchesFrom(0, n, chunk) && Partition(n, batches)
    ensures forall k | 0 <= k < |batches| :: 1 <= |batches[k]| <= chunk
  {
    hide Partition;
    batches := [];
    var at := 0;
    var all := AllFiles(n);
    while at < n
      invariant at <= n
      invariant batches + BatchesFrom(at, n, chunk) == BatchesFrom(0, n, chunk)
    {
      var end := if at + chunk <= n then at + chunk else n;
      assert batches + BatchesFrom(at, n, chunk) == batches + [all[at..end]] + BatchesFrom(end, n, chunk);
      batches := batches + [all[at..end]];
      at := end;
    }
    BatchesPartition(n, chunk);
  }

  /** The state of Worker.run. */
  class Process {
    const m: array<nat>
    var counter: multiset<nat>
    var crashes: seq<nat>
    var pack: seq<Octet>
    var packPos: nat

    ghost predicate Holds(wk: Worker)
      reads this, m
    {
      m[..] == wk.m && counter == wk.counter && crashes == wk.crashes && pack == wk.pack && packPos == |wk.pack|
    }

    constructor (cfg: Config)
      ensures Holds(InitWorker(cfg)) && fresh(m)
    {
      m := new nat[cfg.limit](_ => cfg.sentinel);
      counter, crashes, pack, packPos := multiset{}, [], [], 0;
      new;
      assert m[..] == InitWorker(cfg).m;
    }

    /** The body of the loop over a batch. */
    method Handle(cfg: Config, w: nat, ghost wk: Worker, idx: nat) returns (msg: Message)
      requires ValidConfig(cfg) && Holds(wk) && |wk.m| == cfg.limit
      requires wk.pending != [] && wk.pending[0] == idx < |cfg.ts|
      modifies this, m
      ensures Holds(HandleFile(cfg, w, wk).0) && msg == HandleFile(cfg, w, wk).1
    {
      var r := cfg.ts[idx];
      counter := counter + multiset(r);
      var used, crash := false, r == [];
      if crash {
        crashes := crashes + [idx];
      }
      if !crash || !cfg.crashDir {
        var k := 0;
        assert r[..0] == [];
        while k < |r|
          invariant k <= |r|
          invariant (m[..], used) == UpdateBest(wk.m, idx, r[..k])
          modifies m
        {
          assert r[..k + 1][..k] == r[..k];
          if idx < m[r[k]] {
            m[r[k]] := idx;
            used := true;
          }
          k := k + 1;
        }
        assert r[..k] == r;
      }
      if used {
        EncodeLength(r, cfg.itemSize);
        pack := pack + Encode(r, cfg.itemSize);
        msg := Kept(idx, w, packPos, |r|);
        packPos := packPos + |r| * cfg.itemSize;
      } else {
        msg := Skipped;
      }
    }
  }

  datatype Info = Info(worker: nat, pos: nat, count: nat)

  /** The message that stored an entry of trace_info. */
  function AsMessage(idx: nat, i: Info): Message {
    Kept(idx, i.worker, i.pos, i.count)
  }

  /** The trace_info dictionary holds exactly the kept messages; a later one replaces an earlier one. */
  ghost predicate Indexes(info: map<nat, Info>, progress: seq<Message>) {
    && (forall idx | idx in info :: AsMessage(idx, info[idx]) in progress)
    && (forall k | 0 <= k < |progress| && progress[k].Kept? :: progress[k].idx in info)
  }

  /** The loop over the progress queue. */
  method Collect(progress: seq<Message>) returns (info: map<nat, Info>)
    ensures Indexes(info, progress)
  {
    info := map[];
    for i := 0 to |progress|
      invariant Indexes(info, progress[..i])
    {
      var msg := progress[i];
      assert progress[..i + 1] == progress[..i] + [msg];
      if msg.Kept? {
        info := info[msg.idx := Info(msg.worker, msg.pos, msg.count)];
        assert AsMessage(msg.idx, info[msg.idx]) == msg;
      }
    }
    assert progress[..|progress|] == progress;
  }

  /** list(map(min, zip(*ms))). */
  method MergeTables(ws: seq<Worker>, limit: nat) returns (best: seq<nat>)
    requires ws != [] && forall w | 0 <= w < |ws| :: |ws[w].m| == limit
    ensures |best| == limit
    ensures forall t | 0 <= t < limit :: best[t] == MergedBest(ws, t)
  {
    best := [];
    for t := 0 to limit
      invariant |best| == t
      invariant forall u | 0 <= u < t :: best[u] == MergedBest(ws, u)
    {
      var b := ws[0].m[t];
      assert ws[..1] == [ws[0]];
      for w := 1 to |ws|
        invariant forall v | 0 <= v < w :: ws[..w][v] == ws[v]
        invariant b == MergedBest(ws[..w], t)
      {
        assert ws[..w + 1][..w] == ws[..w];
        if ws[w].m[t] < b {
          b := ws[w].m[t];
        }
      }
      assert ws[..|ws|] == ws;
      best := best + [b];
    }
  }

  /** crashes.extend(crs) for each result. */
  method MergeCrashes(ws: seq<Worker>) returns (crashes: seq<nat>)
    ensures crashes == MergedCrashes(ws)
  {
    crashes := [];
    for w := 0 to |ws|
      invariant crashes == MergedCrashes(ws[..w])
    {
      assert ws[..w + 1][..w] == ws[..w];
      crashes := crashes + ws[w].crashes;
    }
    assert ws[..|ws|] == ws;
  }
}
