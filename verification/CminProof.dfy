/** What every interleaving of the parallel stage of afl-cmin keeps, and how every run ends. */
module CminProof {
  import opened CminCorpus
  import opened CminProtocol
  import opened CminPack

  // ---------- The start ----------

  /** The batches name every file once, as the batching of enumerate(files) does. */
  ghost predicate Partition(n: nat, batches: seq<seq<nat>>) {
    BatchBag(batches) == multiset(AllFiles(n))
  }

  function BatchBag(batches: seq<seq<nat>>): multiset<nat> {
    if batches == [] then multiset{} else multiset(batches[0]) + BatchBag(batches[1..])
  }

  lemma {:induction false} InitJobs(batches: seq<seq<nat>>, n: nat)
    ensures var jobs := seq(|batches|, i requires 0 <= i < |batches| => Batch(batches[i])) + seq(n, _ => Stop);
            JobFiles(jobs) == BatchBag(batches) && StopCount(jobs) == n
    decreases |batches|
  {
    var jobs := seq(|batches|, i requires 0 <= i < |batches| => Batch(batches[i])) + seq(n, _ => Stop);
    if batches == [] {
      assert jobs == seq(n, _ => Stop);
      OnlyStops(n);
    } else {
      var tail := batches[1..];
      assert jobs[1..] == seq(|tail|, i requires 0 <= i < |tail| => Batch(tail[i])) + seq(n, _ => Stop);
      InitJobs(tail, n);
    }
  }

  lemma {:induction false} OnlyStops(n: nat)
    ensures JobFiles(seq(n, _ => Stop)) == multiset{} && StopCount(seq(n, _ => Stop)) == n
  {
    if n > 0 {
      assert seq(n, _ => Stop)[1..] == seq(n - 1, _ => Stop);
      OnlyStops(n - 1);
    }
  }

  lemma {:induction false} InitWorkers(cfg: Config, n: nat)
    ensures var ws := seq(n, _ => InitWorker(cfg));
            Handled(ws) == multiset{} == Pending(ws) && StoppedCount(ws) == 0
  {
    if n > 0 {
      assert seq(n, _ => InitWorker(cfg))[..n - 1] == seq(n - 1, _ => InitWorker(cfg));
      InitWorkers(cfg, n - 1);
    }
  }

  lemma InitHolds(cfg: Config, n: nat, batches: seq<seq<nat>>)
    requires ValidConfig(cfg) && Partition(|cfg.ts|, batches)
    ensures Inv(cfg, Init(cfg, n, batches))
  {
    hide Handled, Pending, JobFiles, StopCount, StoppedCount, BatchBag;
    var s := Init(cfg, n, batches);
    assert Waiting(s) == s.unsent;
    InitJobs(batches, n);
    InitWorkers(cfg, n);
  }

  // ---------- The steps ----------

  lemma OneMoreHandled(ts: seq<Trace>, hist: seq<nat>, idx: nat)
    requires idx < |ts|
    ensures Tally(ts, hist + [idx]) == Tally(ts, hist) + multiset(ts[idx])
    ensures Crashed(ts, hist + [idx]) == Crashed(ts, hist) + if ts[idx] == [] then [idx] else []
  {
    assert (hist + [idx])[..|hist|] == hist;
  }

  /** One file more: the table again holds the best of the handled files. */
  lemma TableStep(cfg: Config, w: nat, wk: Worker)
    requires ValidConfig(cfg) && WorkerOk(cfg, wk) && wk.pending != []
    ensures WorkerOk(cfg, HandleFile(cfg, w, wk).0)
    ensures HandleFile(cfg, w, wk).0.hist == wk.hist + [wk.pending[0]]
    ensures HandleFile(cfg, w, wk).0.pending == wk.pending[1..]
    ensures HandleFile(cfg, w, wk).0.stopped == wk.stopped
  {
    hide UpdateBest, Tally, Crashed, Encode;
    var idx := wk.pending[0];
    var r := cfg.ts[idx];
    var wk' := HandleFile(cfg, w, wk).0;
    UpdateBestMeaning(wk.m, idx, r);
    OneMoreHandled(cfg.ts, wk.hist, idx);
    assert forall i :: i in wk'.hist <==> i in wk.hist || i == idx;
    assert wk.pending == [idx] + wk.pending[1..];
    forall t | 0 <= t < cfg.limit
      ensures IsBest(cfg.ts, wk'.hist, cfg.sentinel, t, wk'.m[t])
    {
      assert IsBest(cfg.ts, wk.hist, cfg.sentinel, t, wk.m[t]);
      assert Shows(cfg.ts, idx, t) <==> t in r;
    }
  }

  /** Packs only grow, so old messages stay right; a new message is right; new winners are reported. */
  lemma MessageStep(cfg: Config, s: State, w: nat)
    requires Inv(cfg, s) && Enabled(cfg, s, Process(w))
    ensures var s' := Apply(cfg, s, Process(w));
            && (forall k | 0 <= k < |s'.progress| :: Locates(cfg, s'.workers, s'.progress[k]))
            && (forall v | 0 <= v < |s'.workers| :: WinnersReported(cfg, s'.workers[v], s'.progress))
  {
    hide UpdateBest, Handled, Pending, JobFiles, StopCount, StoppedCount, Tally;
    var wk := s.workers[w];
    var (wk', msg) := HandleFile(cfg, w, wk);
    var s' := Apply(cfg, s, Process(w));
    var r := cfg.ts[wk.pending[0]];
    UpdateBestMeaning(wk.m, wk.pending[0], r);
    assert wk.pack <= wk'.pack;
    assert Fits(r, cfg.itemSize);
    TraceAppended(wk.pack, r, cfg.itemSize);
    hide TraceAt, Encode;
    forall k | 0 <= k < |s'.progress|
      ensures Locates(cfg, s'.workers, s'.progress[k])
    {
      if k < |s.progress| {
        KeepsLocated(cfg, s.workers, w, wk', s.progress[k]);
      }
    }
    forall v | 0 <= v < |s'.workers|
      ensures WinnersReported(cfg, s'.workers[v], s'.progress)
    {
      ReportedKept(cfg, s.workers[v], s.progress, msg);
      if v == w {
        NewWinner(cfg, wk, wk', s.progress, msg);
      }
    }
  }

  lemma KeepsLocated(cfg: Config, ws: seq<Worker>, w: nat, wk: Worker, msg: Message)
    requires w < |ws| && ws[w].pack <= wk.pack && Locates(cfg, ws, msg)
    ensures Locates(cfg, ws[w := wk], msg)
  {
    hide TraceAt;
    if msg.Kept? && msg.worker == w {
      TraceStays(ws[w].pack, wk.pack, msg.pos, msg.count, cfg.itemSize, cfg.ts[msg.idx]);
    }
  }

  lemma ReportedKept(cfg: Config, wk: Worker, progress: seq<Message>, msg: Message)
    requires WinnersReported(cfg, wk, progress)
    ensures WinnersReported(cfg, wk, progress + [msg])
  {
    forall t | 0 <= t < |wk.m| && wk.m[t] != cfg.sentinel
      ensures Reported(progress + [msg], wk.m[t])
    {
      var k :| 0 <= k < |progress| && progress[k].Kept? && progress[k].idx == wk.m[t];
      assert (progress + [msg])[k] == progress[k];
    }
  }

  lemma NewWinner(cfg: Config, wk: Worker, wk': Worker, progress: seq<Message>, msg: Message)
    requires WinnersReported(cfg, wk, progress) && |wk.m| == |wk'.m|
    requires forall t | 0 <= t < |wk.m| && wk'.m[t] != wk.m[t] :: msg.Kept? && msg.idx == wk'.m[t]
    ensures WinnersReported(cfg, wk', progress + [msg])
  {
    ReportedKept(cfg, wk, progress, msg);
    var all := progress + [msg];
    forall t | 0 <= t < |wk'.m| && wk'.m[t] != cfg.sentinel
      ensures Reported(all, wk'.m[t])
    {
      if wk'.m[t] != wk.m[t] {
        assert all[|progress|].Kept? && all[|progress|].idx == wk'.m[t];
      }
    }
  }

  /** Handling the next file moves it from the pending to the handled ones. */
  lemma FileMoves(ws: seq<Worker>, w: nat, wk': Worker)
    requires w < |ws| && ws[w].pending != []
    requires wk'.hist == ws[w].hist + [ws[w].pending[0]] && wk'.pending == ws[w].pending[1..]
    ensures Handled(ws[w := wk']) == Handled(ws) + multiset{ws[w].pending[0]}
    ensures Pending(ws[w := wk']) + multiset{ws[w].pending[0]} == Pending(ws)
  {
    hide Handled, Pending;
    var wk, idx, after := ws[w], ws[w].pending[0], ws[w := wk'];
    HandledUpdate(ws, w, wk');
    PendingUpdate(ws, w, wk');
    assert wk.pending == [idx] + wk.pending[1..];
    assert Handled(ws) + multiset(wk'.hist) == (Handled(ws) + multiset{idx}) + multiset(wk.hist);
    Cancel(Handled(after), Handled(ws) + multiset{idx}, multiset(wk.hist));
    assert Pending(after) + multiset(wk.pending) == (Pending(after) + multiset{idx}) + multiset(wk'.pending);
    Cancel(Pending(after) + multiset{idx}, Pending(ws), multiset(wk'.pending));
  }

  /** Taking a batch makes its files pending. */
  lemma BatchMoves(ws: seq<Worker>, w: nat, wk': Worker)
    requires w < |ws| && ws[w].pending == [] && wk'.hist == ws[w].hist
    ensures Handled(ws[w := wk']) == Handled(ws)
    ensures Pending(ws[w := wk']) == Pending(ws) + multiset(wk'.pending)
  {
    hide Handled, Pending;
    HandledUpdate(ws, w, wk');
    PendingUpdate(ws, w, wk');
    Cancel(Handled(ws[w := wk']), Handled(ws), multiset(wk'.hist));
  }

  lemma ProcessKeeps(cfg: Config, s: State, w: nat)
    requires Inv(cfg, s) && Enabled(cfg, s, Process(w))
    ensures Inv(cfg, Apply(cfg, s, Process(w)))
  {
    hide UpdateBest, Handled, Pending, JobFiles, StopCount, StoppedCount, Tally, HandleFile;
    var wk := s.workers[w];
    var wk' := HandleFile(cfg, w, wk).0;
    TableStep(cfg, w, wk);
    MessageStep(cfg, s, w);
    FileMoves(s.workers, w, wk');
    StoppedUpdate(s.workers, w, wk');
  }

  lemma SendKeeps(cfg: Config, s: State)
    requires Inv(cfg, s) && Enabled(cfg, s, Send)
    ensures Inv(cfg, Apply(cfg, s, Send))
  {
    hide Handled, Pending, JobFiles, StopCount, StoppedCount, Tally;
    assert Waiting(Apply(cfg, s, Send)) == Waiting(s);
  }

  /** A job leaves the front of the queue. */
  lemma TakeFront(s: State, jobs: seq<Job>)
    requires s.queue != [] && jobs == Waiting(s)
    ensures jobs[1..] == s.queue[1..] + s.unsent && jobs[0] == s.queue[0]
    ensures JobFiles(jobs) == (if jobs[0].Batch? then multiset(jobs[0].files) else multiset{}) + JobFiles(jobs[1..])
    ensures StopCount(jobs) == (if jobs[0].Stop? then 1 else 0) + StopCount(jobs[1..])
  {
  }

  lemma TakeLedger(cfg: Config, s: State, w: nat)
    requires Inv(cfg, s) && Enabled(cfg, s, Take(w))
    ensures Ledger(cfg, Apply(cfg, s, Take(w)))
    ensures Handled(Apply(cfg, s, Take(w)).workers) == Handled(s.workers)
  {
    hide Handled, Pending, JobFiles, StopCount, StoppedCount, Tally, IsBest, Reported;
    var s' := Apply(cfg, s, Take(w));
    TakeFront(s, Waiting(s));
    assert Waiting(s') == Waiting(s)[1..];
    BatchMoves(s.workers, w, s'.workers[w]);
  }

  lemma TakeSentinels(cfg: Config, s: State, w: nat)
    requires Inv(cfg, s) && Enabled(cfg, s, Take(w))
    ensures Sentinels(Apply(cfg, s, Take(w)))
  {
    hide Handled, Pending, JobFiles, StopCount, StoppedCount, Tally, IsBest, Reported, WorkerOk;
    var s' := Apply(cfg, s, Take(w));
    TakeFront(s, Waiting(s));
    assert Waiting(s') == Waiting(s)[1..];
    StoppedUpdate(s.workers, w, s'.workers[w]);
    if Waiting(s)[0].Stop? {
      assert AllStops(Waiting(s));
    }
  }

  lemma TakeKeeps(cfg: Config, s: State, w: nat)
    requires Inv(cfg, s) && Enabled(cfg, s, Take(w))
    ensures Inv(cfg, Apply(cfg, s, Take(w)))
  {
    hide Handled, Pending, JobFiles, StopCount, StoppedCount, Tally, IsBest, Reported, Ledger, Sentinels;
    var s' := Apply(cfg, s, Take(w));
    TakeLedger(cfg, s, w);
    TakeSentinels(cfg, s, w);
    if s.queue[0].Batch? {
      TakenFiles(cfg, s);
    }
    forall k | 0 <= k < |s'.progress|
      ensures Locates(cfg, s'.workers, s'.progress[k])
    {
      KeepsLocated(cfg, s.workers, w, s'.workers[w], s.progress[k]);
    }
  }

  /** The files of a taken batch exist. */
  lemma TakenFiles(cfg: Config, s: State)
    requires Ledger(cfg, s) && s.queue != [] && s.queue[0].Batch?
    ensures forall k | 0 <= k < |s.queue[0].files| :: s.queue[0].files[k] < |cfg.ts|
  {
    hide Handled, Pending, JobFiles, StopCount;
    TakeFront(s, Waiting(s));
    forall k | 0 <= k < |s.queue[0].files|
      ensures s.queue[0].files[k] < |cfg.ts|
    {
      var i := s.queue[0].files[k];
      assert i in multiset(s.queue[0].files);
      assert i in multiset(AllFiles(|cfg.ts|));
      InAllFiles(|cfg.ts|, i);
    }
  }

  lemma StepKeeps(cfg: Config, s: State, step: Step)
    requires Inv(cfg, s) && Enabled(cfg, s, step)
    ensures Inv(cfg, Apply(cfg, s, step))
  {
    hide Inv, Apply;
    match step {
      case Send => SendKeeps(cfg, s);
      case Take(w) => TakeKeeps(cfg, s, w);
      case Process(w) => ProcessKeeps(cfg, s, w);
    }
  }

  lemma {:induction false} RunKeeps(cfg: Config, s0: State, steps: seq<Step>, s: State)
    requires ValidConfig(cfg) && Inv(cfg, s0) && Reaches(cfg, s0, steps, s)
    ensures Inv(cfg, s)
    decreases |steps|
  {
    hide Inv, Apply;
    if steps != [] {
      StepKeeps(cfg, s0, steps[0]);
      RunKeeps(cfg, Apply(cfg, s0, steps[0]), steps[1..], s);
    }
  }

  lemma {:induction false} RunKeepsWorkers(cfg: Config, s0: State, steps: seq<Step>, s: State)
    requires ValidConfig(cfg) && Reaches(cfg, s0, steps, s)
    ensures |s.workers| == |s0.workers|
    decreases |steps|
  {
    if steps != [] {
      RunKeepsWorkers(cfg, Apply(cfg, s0, steps[0]), steps[1..], s);
    }
  }

  // ---------- No deadlock, no endless run ----------

  lemma {:induction false} NotAllStopped(ws: seq<Worker>)
    ensures StoppedCount(ws) == |ws| <==> forall w | 0 <= w < |ws| :: ws[w].stopped
  {
    if ws != [] {
      var n := |ws| - 1;
      NotAllStopped(ws[..n]);
      assert forall w | 0 <= w < n :: ws[..n][w] == ws[w];
    }
  }

  /** While some worker has not stopped, some process can move. */
  lemma NoDeadlock(cfg: Config, s: State)
    requires Inv(cfg, s) && !Finished(s)
    ensures exists step :: Enabled(cfg, s, step)
  {
    hide Handled, Pending, JobFiles, Tally, IsBest;
    var w :| 0 <= w < |s.workers| && !s.workers[w].stopped;
    NotAllStopped(s.workers);
    if s.workers[w].pending != [] {
      assert WorkerOk(cfg, s.workers[w]);
      assert s.workers[w].pending[0] in s.workers[w].pending;
      assert Enabled(cfg, s, Process(w));
    } else if s.queue != [] {
      assert Enabled(cfg, s, Take(w));
    } else {
      assert Waiting(s) == s.unsent;
      assert s.unsent != [];
      assert Enabled(cfg, s, Send);
    }
  }

  /** What is left to do: files not handled, jobs not taken, jobs not sent. */
  function Measure(s: State): nat {
    |Pending(s.workers)| + |JobFiles(Waiting(s))| + |s.queue| + 2 * |s.unsent|
  }

  lemma MeasureDrops(cfg: Config, s: State, step: Step)
    requires Inv(cfg, s) && Enabled(cfg, s, step)
    ensures Measure(Apply(cfg, s, step)) < Measure(s)
  {
    hide Handled, Pending, JobFiles, StopCount, StoppedCount, Tally, IsBest, Reported, UpdateBest;
    var s' := Apply(cfg, s, step);
    match step {
      case Send =>
        assert Waiting(s') == Waiting(s);
      case Take(w) =>
        TakeFront(s, Waiting(s));
        assert Waiting(s') == Waiting(s)[1..];
        BatchMoves(s.workers, w, s'.workers[w]);
      case Process(w) =>
        FileMoves(s.workers, w, s'.workers[w]);
        assert |Pending(s.workers)| == |Pending(s'.workers)| + 1;
    }
  }

  /** Every run is bounded by what was left to do at its start. */
  lemma {:induction false} RunsEnd(cfg: Config, s0: State, steps: seq<Step>, s: State)
    requires ValidConfig(cfg) && Inv(cfg, s0) && Reaches(cfg, s0, steps, s)
    ensures |steps| + Measure(s) <= Measure(s0)
    decreases |steps|
  {
    hide Inv, Apply, Measure;
    if steps != [] {
      StepKeeps(cfg, s0, steps[0]);
      MeasureDrops(cfg, s0, steps[0]);
      RunsEnd(cfg, Apply(cfg, s0, steps[0]), steps[1..], s);
    }
  }

  /** Every state that a run can reach can be run on until all workers have stopped. */
  lemma {:induction false} Completes(cfg: Config, s: State) returns (steps: seq<Step>, end: State)
    requires Inv(cfg, s)
    ensures ValidConfig(cfg) && Reaches(cfg, s, steps, end) && Finished(end)
    decreases Measure(s)
  {
    InvValid(cfg, s);
    hide Inv, Enabled, Apply, Measure, Finished;
    if Finished(s) {
      return [], s;
    }
    NoDeadlock(cfg, s);
    var step :| Enabled(cfg, s, step);
    StepKeeps(cfg, s, step);
    MeasureDrops(cfg, s, step);
    steps, end := Completes(cfg, Apply(cfg, s, step));
    var all := [step] + steps;
    assert all[1..] == steps;
    steps := all;
  }

  lemma InvValid(cfg: Config, s: State)
    requires Inv(cfg, s)
    ensures ValidConfig(cfg)
  {
  }

  // ---------- The end ----------

  /** The handled files as one list, worker by worker. */
  function Histories(ws: seq<Worker>): seq<nat> {
    if ws == [] then [] else Histories(ws[..|ws| - 1]) + ws[|ws| - 1].hist
  }

  lemma {:induction false} HistoriesBag(ws: seq<Worker>)
    ensures multiset(Histories(ws)) == Handled(ws)
  {
    if ws != [] {
      HistoriesBag(ws[..|ws| - 1]);
    }
  }

  lemma {:induction false} NothingPending(ws: seq<Worker>)
    requires forall w | 0 <= w < |ws| :: ws[w].pending == []
    ensures Pending(ws) == multiset{}
  {
    if ws != [] {
      NothingPending(ws[..|ws| - 1]);
    }
  }

  lemma {:induction false} OnlyStopsCount(jobs: seq<Job>)
    requires AllStops(jobs)
    ensures StopCount(jobs) == |jobs|
  {
    if jobs != [] {
      OnlyStopsCount(jobs[1..]);
    }
  }

  /** When all workers stopped, every file was handled once and the queues hold the expected messages. */
  lemma FinishedState(cfg: Config, s: State)
    requires Inv(cfg, s) && Finished(s) && |s.workers| > 0
    ensures Waiting(s) == []
    ensures Handled(s.workers) == multiset(AllFiles(|cfg.ts|))
    ensures |s.progress| == |cfg.ts|
    ensures |s.results| == |s.workers|
    ensures forall w | 0 <= w < |s.workers| :: multiset(s.results)[w] == 1
  {
    hide Handled, Pending, Tally, IsBest, Reported;
    NotAllStopped(s.workers);
    OnlyStopsCount(Waiting(s));
    forall w | 0 <= w < |s.workers|
      ensures s.workers[w].pending == []
    {
      assert WorkerOk(cfg, s.workers[w]);
    }
    NothingPending(s.workers);
    assert JobFiles(Waiting(s)) == multiset{};
    assert Handled(s.workers) == multiset(AllFiles(|cfg.ts|));
  }

  // ---------- Merging the workers' results ----------

  /** counter.update over the result messages. */
  function MergedCounter(ws: seq<Worker>): multiset<nat> {
    if ws == [] then multiset{} else MergedCounter(ws[..|ws| - 1]) + ws[|ws| - 1].counter
  }

  /** One column of map(min, zip(*ms)). */
  function MergedBest(ws: seq<Worker>, t: nat): nat
    requires ws != [] && forall w | 0 <= w < |ws| :: t < |ws[w].m|
  {
    var last := ws[|ws| - 1].m[t];
    if |ws| == 1 then last
    else var before := MergedBest(ws[..|ws| - 1], t);
         if before <= last then before else last
  }

  /** crashes.extend over the results. */
  function MergedCrashes(ws: seq<Worker>): seq<nat> {
    if ws == [] then [] else MergedCrashes(ws[..|ws| - 1]) + ws[|ws| - 1].crashes
  }

  lemma {:induction false} MergedCrashesIs(cfg: Config, ws: seq<Worker>)
    requires forall w | 0 <= w < |ws| :: WorkerOk(cfg, ws[w])
    ensures MergedCrashes(ws) == Crashed(cfg.ts, Histories(ws))
  {
    hide Tally, IsBest, Crashed;
    if ws == [] {
      NoneCrashed(cfg.ts);
    } else {
      var n := |ws| - 1;
      MergedCrashesIs(cfg, ws[..n]);
      assert WorkerOk(cfg, ws[n]);
      CrashedConcat(cfg.ts, Histories(ws[..n]), ws[n].hist);
    }
  }

  lemma NoneCrashed(ts: seq<Trace>)
    ensures Crashed(ts, []) == []
  {
  }

  /** After every complete run the merged list names each file with an empty trace once, and no other. */
  lemma CrashesReported(cfg: Config, s: State, i: nat)
    requires Inv(cfg, s) && Finished(s) && |s.workers| > 0
    ensures multiset(MergedCrashes(s.workers))[i] == if i < |cfg.ts| && cfg.ts[i] == [] then 1 else 0
  {
    FinishedState(cfg, s);
    InvWorkers(cfg, s);
    hide Inv, Finished, MergedCrashes, Crashed, WorkerOk;
    MergedCrashesIs(cfg, s.workers);
    HistoriesBag(s.workers);
    CrashedCount(cfg.ts, Histories(s.workers), i);
    EachFileOnce(|cfg.ts|, i);
  }

  lemma InvWorkers(cfg: Config, s: State)
    requires Inv(cfg, s)
    ensures forall w | 0 <= w < |s.workers| :: WorkerOk(cfg, s.workers[w])
  {
  }

  lemma {:induction false} MergedCounterIs(cfg: Config, ws: seq<Worker>)
    requires forall w | 0 <= w < |ws| :: WorkerOk(cfg, ws[w])
    ensures MergedCounter(ws) == Tally(cfg.ts, Histories(ws))
  {
    hide IsBest;
    if ws != [] {
      var n := |ws| - 1;
      assert forall w | 0 <= w < n :: ws[..n][w] == ws[w];
      MergedCounterIs(cfg, ws[..n]);
      assert WorkerOk(cfg, ws[n]);
      TallyConcat(cfg.ts, Histories(ws[..n]), ws[n].hist);
    }
  }

  lemma {:induction false} MergedBestIs(cfg: Config, ws: seq<Worker>, t: nat)
    requires ws != [] && t < cfg.limit && |cfg.ts| <= cfg.sentinel
    requires forall w | 0 <= w < |ws| :: WorkerOk(cfg, ws[w]) && t < |ws[w].m|
    ensures IsBest(cfg.ts, Histories(ws), cfg.sentinel, t, MergedBest(ws, t))
  {
    hide Tally;
    var n := |ws| - 1;
    assert WorkerOk(cfg, ws[n]);
    assert IsBest(cfg.ts, ws[n].hist, cfg.sentinel, t, ws[n].m[t]);
    if n == 0 {
      assert ws[..0] == [];
      assert Histories(ws) == ws[0].hist;
    } else {
      assert forall w | 0 <= w < n :: ws[..n][w] == ws[w];
      MergedBestIs(cfg, ws[..n], t);
      JoinBest(cfg.ts, Histories(ws[..n]), ws[n].hist, cfg.sentinel, t, MergedBest(ws[..n], t), ws[n].m[t]);
    }
  }

  lemma JoinBest(ts: seq<Trace>, x: seq<nat>, y: seq<nat>, sentinel: nat, t: nat, b1: nat, b2: nat)
    requires |ts| <= sentinel && IsBest(ts, x, sentinel, t, b1) && IsBest(ts, y, sentinel, t, b2)
    ensures IsBest(ts, x + y, sentinel, t, if b1 <= b2 then b1 else b2)
  {
    assert forall i :: i in x + y <==> i in x || i in y;
  }

  /**
   Whatever the schedule: once all workers have stopped, the merged counter counts every trace of the
   corpus once and the merged table names the first file that shows each tuple.
   */
  lemma ScheduleIndependent(cfg: Config, n: nat, batches: seq<seq<nat>>, steps: seq<Step>, s: State, t: nat)
    requires ValidConfig(cfg) && Partition(|cfg.ts|, batches)
    requires n > 0 && Reaches(cfg, Init(cfg, n, batches), steps, s) && Finished(s)
    requires t < cfg.limit
    ensures Inv(cfg, s) && |s.workers| == n
    ensures MergedCounter(s.workers) == Tally(cfg.ts, AllFiles(|cfg.ts|))
    ensures forall w | 0 <= w < |s.workers| :: t < |s.workers[w].m|
    ensures IsBest(cfg.ts, AllFiles(|cfg.ts|), cfg.sentinel, t, MergedBest(s.workers, t))
  {
    hide Handled, Pending, JobFiles, StopCount, StoppedCount, Tally, IsBest, Reaches, Init, BatchBag;
    InitHolds(cfg, n, batches);
    RunKeepsWorkers(cfg, Init(cfg, n, batches), steps, s);
    InitSize(cfg, n, batches);
    RunKeeps(cfg, Init(cfg, n, batches), steps, s);
    FinishedState(cfg, s);
    HistoriesBag(s.workers);
    MergedCounterIs(cfg, s.workers);
    TallyOrder(cfg.ts, Histories(s.workers), AllFiles(|cfg.ts|));
    MergedBestIs(cfg, s.workers, t);
    SameBest(cfg.ts, Histories(s.workers), AllFiles(|cfg.ts|), cfg.sentinel, t, MergedBest(s.workers, t));
  }

  lemma InitSize(cfg: Config, n: nat, batches: seq<seq<nat>>)
    ensures |Init(cfg, n, batches).workers| == n
  {
  }

  lemma SameBest(ts: seq<Trace>, x: seq<nat>, y: seq<nat>, sentinel: nat, t: nat, b: nat)
    requires multiset(x) == multiset(y) && IsBest(ts, x, sentinel, t, b)
    ensures IsBest(ts, y, sentinel, t, b)
  {
    assert forall i :: i in x <==> i in multiset(x);
    assert forall i :: i in y <==> i in multiset(y);
  }
}
